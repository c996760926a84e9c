/** The grammar of the texts that vox_json.c parses, and that it parses exactly those. */
module JsonGrammar {
  import opened Prelude
  import opened Json
  import opened JsonRoundTrip

  /*
   The grammar is that of RFC 8259 but for three things: vertical tab and form feed are white space too, white space
   after an opening quote is not part of the string, and a string may hold control characters and escape any character.
   Strings are values in their spelling.
   */

  // ---------- Numbers: section 6 of RFC 8259 ----------

  predicate Ten(c: char) { c in "0123456789" }

  ghost predicate Digits(w: string) {
    w != "" && forall i | 0 <= i < |w| :: Ten(w[i])
  }

  ghost predicate IntegerPart(w: string) { w == "0" || (Digits(w) && w[0] != '0') }

  ghost predicate FractionPart(w: string) { w == "" || (w[0] == '.' && Digits(w[1..])) }

  ghost predicate ExponentPart(w: string) {
    w == "" || (w[0] in "eE" && (Digits(w[1..]) || (|w| > 1 && w[1] in "+-" && Digits(w[2..]))))
  }

  /** A minus sign or none, the integer part from a on, the fraction from b on and the exponent from c on. */
  ghost predicate NumberParts(w: string, a: nat, b: nat, c: nat) {
    && a <= b <= c <= |w| && (a == 0 || (a == 1 && w[0] == '-'))
    && IntegerPart(w[a..b]) && FractionPart(w[b..c]) && ExponentPart(w[c..])
  }

  ghost predicate NumberWord(w: string) {
    exists a, b, c :: NumberParts(w, a, b, c)
  }

  /** What may follow a number without being taken for a part of it. */
  ghost predicate Ends(rest: string) { rest == "" || (!Ten(rest[0]) && rest[0] !in ".eE") }

  lemma DigitChar(c: char)
    ensures IsDigit(c) <==> Ten(c)
  {
  }

  /** A run of digits is read to its end. */
  lemma {:induction false} DigitsRead(s: string, i: nat, j: nat)
    requires i <= j <= |s| && (forall k | i <= k < j :: Ten(s[k])) && (j == |s| || !Ten(s[j]))
    ensures DigitsEnd(s, i) == j
    decreases j - i
  {
    if i < |s| { DigitChar(s[i]); }
    if i < j { DigitsRead(s, i + 1, j); }
  }

  lemma {:induction false} DigitsFound(s: string, i: nat)
    requires i <= |s|
    ensures var j := DigitsEnd(s, i); (forall k | i <= k < j :: Ten(s[k])) && (j == |s| || !Ten(s[j]))
    decreases |s| - i
  {
    if i < |s| { DigitChar(s[i]); }
    if i < |s| && IsDigit(s[i]) { DigitsFound(s, i + 1); }
  }

  lemma IntegerRead(s: string, a: nat, b: nat)
    requires a <= b <= |s| && (a == 0 || (a == 1 && s[0] == '-')) && IntegerPart(s[a..b]) && (b == |s| || !Ten(s[b]))
    ensures s != "" && IntegerEnd(s) == Some(b)
  {
    var w := s[a..b];
    assert w != "" && s[a] == w[0];
    assert forall k | a <= k < b :: s[k] == w[k - a];
    forall c: char ensures IsDigit(c) <==> Ten(c) { DigitChar(c); }
    if w != "0" { DigitsRead(s, a + 1, b); }
  }

  lemma IntegerFound(s: string)
    requires s != "" && IntegerEnd(s).Some?
    ensures var j := IntegerEnd(s).value; var sign := if s[0] == '-' then 1 else 0;
            sign < j && IntegerPart(s[sign..j]) && (j == |s| || !Ten(s[j]))
  {
    var i := if s[0] == '-' then 1 else 0;
    forall c: char ensures IsDigit(c) <==> Ten(c) { DigitChar(c); }
    if Peek(s, i) == '0' {
      assert s[i..i + 1] == "0";
    } else {
      DigitsFound(s, i + 1);
      var w := s[i..DigitsEnd(s, i + 1)];
      assert w[0] == s[i] && Digits(w);
    }
  }

  lemma FractionRead(s: string, b: nat, c: nat)
    requires b <= c <= |s| && FractionPart(s[b..c])
    requires c < |s| ==> !Ten(s[c]) && (b == c ==> s[c] != '.')
    ensures FractionEnd(s, b) == Some(c)
  {
    if b < c {
      var w := s[b..c];
      assert s[b] == w[0] && s[b + 1] == w[1..][0];
      assert forall k | b + 1 <= k < c :: s[k] == w[1..][k - b - 1];
      DigitChar(s[b + 1]);
      DigitsRead(s, b + 1, c);
    }
  }

  lemma FractionFound(s: string, i: nat)
    requires i <= |s| && FractionEnd(s, i).Some?
    ensures var j := FractionEnd(s, i).value; FractionPart(s[i..j])
  {
    if Peek(s, i) == '.' {
      DigitChar(Peek(s, i + 1));
      DigitsFound(s, i + 1);
      var j := DigitsEnd(s, i + 1);
      assert s[i..j][1..] == s[i + 1..j];
    }
  }

  lemma ExponentRead(s: string, c: nat, d: nat)
    requires c <= d <= |s| && ExponentPart(s[c..d])
    requires d < |s| ==> !Ten(s[d]) && (c == d ==> s[d] !in "eE")
    ensures ExponentEnd(s, c) == Some(d)
  {
    if c < d {
      var w := s[c..d];
      var k := if Digits(w[1..]) then 1 else 2;
      assert s[c] == w[0] && s[c + 1] == w[1] && s[c + k] == w[k..][0];
      assert forall i | c + k <= i < d :: s[i] == w[k..][i - c - k];
      DigitChar(s[c + k]);
      DigitsRead(s, c + k, d);
    }
  }

  lemma ExponentFound(s: string, i: nat)
    requires i <= |s| && ExponentEnd(s, i).Some?
    ensures var j := ExponentEnd(s, i).value; ExponentPart(s[i..j])
  {
    if Peek(s, i) == 'e' || Peek(s, i) == 'E' {
      var k := if Peek(s, i + 1) == '+' || Peek(s, i + 1) == '-' then i + 2 else i + 1;
      DigitChar(Peek(s, k));
      DigitsFound(s, k);
      var j := DigitsEnd(s, k);
      var w := s[i..j];
      assert w[0] == s[i] && w[1] == s[i + 1];
      assert w[k - i..] == s[k..j] && Digits(s[k..j]);
    }
  }

  /** Every number of the grammar is read to its end. */
  lemma NumberRead(w: string, rest: string)
    requires NumberWord(w) && Ends(rest)
    ensures w != "" && NumberEnd(w + rest) == Some(|w|)
  {
    var s, d := w + rest, |w|;
    var a: nat, b: nat, c: nat :| NumberParts(w, a, b, c);
    assert s[a..b] == w[a..b] && s[b..c] == w[b..c] && s[c..d] == w[c..];
    assert b < c ==> s[b] == w[b..c][0];
    assert c < d ==> s[c] == w[c..][0];
    assert d < |s| ==> s[d] == rest[0];
    hide Digits, IntegerPart, IntegerEnd, FractionEnd, ExponentEnd;
    IntegerRead(s, a, b);
    FractionRead(s, b, c);
    ExponentRead(s, c, d);
  }

  /** What is read as a number is one of the grammar. */
  lemma NumberFound(s: string)
    requires s != "" && NumberEnd(s).Some?
    ensures NumberWord(s[..NumberEnd(s).value])
  {
    hide FractionEnd, ExponentEnd, IntegerEnd, IntegerPart, FractionPart, ExponentPart, Ten;
    var a := if s[0] == '-' then 1 else 0;
    var b := IntegerEnd(s).value;
    IntegerFound(s);
    var c := FractionEnd(s, b).value;
    FractionFound(s, b);
    var d := ExponentEnd(s, c).value;
    ExponentFound(s, c);
    var w := s[..d];
    SlicesOf(s, a, b, c, d);
    assert NumberParts(w, a, b, c);
  }

  lemma SlicesOf(s: string, a: nat, b: nat, c: nat, d: nat)
    requires a <= b <= c <= d <= |s|
    ensures s[..d][a..b] == s[a..b] && s[..d][b..c] == s[b..c] && s[..d][c..] == s[c..d]
  {
  }

  // ---------- White space: section 2 of RFC 8259 ----------

  predicate White(c: char) { c in " \t\n\r" || c == '\U{000B}' || c == '\U{000C}' }

  ghost predicate Blanks(t: string, i: nat, j: nat) {
    i <= j <= |t| && forall k | i <= k < j :: White(t[k])
  }

  lemma {:induction false} SkipThrough(t: string, i: nat, j: nat)
    requires Blanks(t, i, j)
    ensures Skip(t[i..]) == Skip(t[j..])
    decreases j - i
  {
    if i < j {
      assert IsSpace(t[i]) && t[i..][1..] == t[i + 1..];
      SkipThrough(t, i + 1, j);
    }
  }

  /** White space is skipped up to the next other character. */
  lemma SkipAt(t: string, i: nat, j: nat)
    requires Blanks(t, i, j) && (j < |t| ==> !White(t[j]))
    ensures Skip(t[i..]) == t[j..]
  {
    SkipThrough(t, i, j);
  }

  lemma {:induction false} SkipEnds(t: string, i: nat) returns (j: nat)
    requires i <= |t|
    ensures Blanks(t, i, j) && Skip(t[i..]) == t[j..] && (j < |t| ==> !White(t[j]))
    decreases |t| - i
  {
    if i < |t| && IsSpace(t[i]) {
      assert t[i..][1..] == t[i + 1..];
      j := SkipEnds(t, i + 1);
    } else {
      j := i;
    }
  }

  // ---------- Strings: section 7 of RFC 8259 ----------

  predicate Hex(c: char) { c in "0123456789abcdefABCDEF" }

  /** Characters and escapes, without an unescaped quotation mark. */
  predicate Body(w: string) {
    w == ""
    || (w[0] !in "\"\\" && Body(w[1..]))
    || (|w| > 1 && w[0] == '\\' && w[1] != 'u' && Body(w[2..]))
    || (|w| > 5 && w[0] == '\\' && w[1] == 'u' && Hex(w[2]) && Hex(w[3]) && Hex(w[4]) && Hex(w[5]) && Body(w[6..]))
  }

  /** A string from i up to j, with the spelling s. */
  ghost predicate StringAt(t: string, i: nat, j: nat, s: string) {
    i < j <= |t| && t[i] == '\"' && exists k: nat :: Blanks(t, i + 1, k) && ClosesAt(t, k, j, s)
  }

  ghost predicate ClosesAt(t: string, k: nat, j: nat, s: string)
    requires j <= |t|
  {
    k < j && t[j - 1] == '\"' && t[k..j - 1] == s && Body(s) && (s != "" ==> !White(s[0]))
  }

  lemma HexChar(c: char)
    ensures IsHex(c) <==> Hex(c)
  {
  }

  lemma {:induction false} BodyRead(u: string, i: nat, j: nat)
    requires i <= j < |u| && Body(u[i..j]) && u[j] == '\"'
    ensures StringEnd(u, i) == Some(j)
    decreases j - i
  {
    if i < j {
      var w := u[i..j];
      assert w[0] == u[i] && w[1..] == u[i + 1..j];
      if w[0] == '\\' {
        assert w[1] == u[i + 1] && w[2..] == u[i + 2..j];
        if w[1] != 'u' {
          BodyRead(u, i + 2, j);
        } else {
          assert w[2] == u[i + 2] && w[3] == u[i + 3] && w[4] == u[i + 4] && w[5] == u[i + 5] && w[6..] == u[i + 6..j];
          HexChar(w[2]); HexChar(w[3]); HexChar(w[4]); HexChar(w[5]);
          BodyRead(u, i + 6, j);
        }
      } else {
        BodyRead(u, i + 1, j);
      }
    }
  }

  lemma {:induction false} BodyFound(u: string, i: nat)
    requires i <= |u| && StringEnd(u, i).Some?
    ensures Body(u[i..StringEnd(u, i).value])
    decreases |u| - i
  {
    var j := StringEnd(u, i).value;
    var w := u[i..j];
    if i < j {
      assert w[0] == u[i] && w[1..] == u[i + 1..j];
      if u[i] != '\\' {
        BodyFound(u, i + 1);
      } else if u[i + 1] != 'u' {
        BodyFound(u, i + 2);
        assert w[1] == u[i + 1] && w[2..] == u[i + 2..j];
      } else {
        BodyFound(u, i + 6);
        assert w[1] == u[i + 1] && w[2] == u[i + 2] && w[3] == u[i + 3] && w[4] == u[i + 4] && w[5] == u[i + 5] && w[6..] == u[i + 6..j];
        HexChar(w[2]); HexChar(w[3]); HexChar(w[4]); HexChar(w[5]);
      }
    }
  }

  lemma StringRead(t: string, i: nat, j: nat, s: string)
    requires StringAt(t, i, j, s)
    ensures ParseString(t[i..]) == Some((s, Skip(t[j..])))
  {
    hide Body, Skip, White, StringEnd;
    var k: nat :| Blanks(t, i + 1, k) && ClosesAt(t, k, j, s);
    assert t[k] == if s == "" then '\"' else s[0];
    QuoteIsBlack();
    SkipAt(t, i + 1, k);
    var u := t[k..];
    assert t[i..][1..] == t[i + 1..] && u[0..j - 1 - k] == s && u[j - 1 - k] == '\"';
    BodyRead(u, 0, j - 1 - k);
    assert u == s + "\"" + t[j..];
    StringParsed(t[i..], s, t[j..]);
  }

  lemma QuoteIsBlack()
    ensures !White('\"') && !White('[') && !White(']') && !White('{') && !White('}') && !White(',') && !White(':') && !White('-')
  {
  }

  lemma StringFound(t: string, i: nat) returns (j: nat)
    requires i <= |t| && ParseString(t[i..]).Some?
    ensures var (s, r) := ParseString(t[i..]).value; StringAt(t, i, j, s) && r == Skip(t[j..])
  {
    hide Body, Skip, White, StringEnd;
    assert t[i..][1..] == t[i + 1..] && t[i..][0] == t[i];
    var k := SkipEnds(t, i + 1);
    var u := t[k..];
    var e := StringEnd(u, 0).value;
    BodyFound(u, 0);
    j := k + e + 1;
    assert t[k..j - 1] == u[..e] && u[e + 1..] == t[j..] && t[j - 1] == u[e];
    assert ClosesAt(t, k, j, u[..e]);
  }

  // ---------- Values: sections 3 to 5 of RFC 8259 ----------

  /** The text from i up to j is a value and stands for the tree e. */
  ghost predicate ValueAt(libc: Libc, t: string, i: nat, j: nat, e: Json)
    decreases e
  {
    i < j <= |t| &&
    match e
    case Null => t[i..j] == "null"
    case Bool(b) => t[i..j] == if b then "true" else "false"
    case Number(num) => NumberWord(t[i..j]) && libc.strtod(t[i..j]) == Some(num)
    case String(s) => StringAt(t, i, j, s)
    case Array(items) =>
      t[i] == '[' && exists k: nat :: Blanks(t, i + 1, k) && if items == [] then ClosedBy(t, k, j, ']') else ItemsAt(libc, t, k, j, items)
    case Object(members) =>
      t[i] == '{' && exists k: nat :: Blanks(t, i + 1, k) && if members == [] then ClosedBy(t, k, j, '}') else MembersAt(libc, t, k, j, members)
  }

  predicate ClosedBy(t: string, k: nat, j: nat, c: char) { k < |t| && t[k] == c && j == k + 1 }

  /** Items, commas between them, and the closing bracket. */
  ghost predicate ItemsAt(libc: Libc, t: string, i: nat, j: nat, items: seq<Json>)
    requires items != []
    decreases items, 1
  {
    i < j <= |t| &&
    exists k: nat, l: nat :: ValueAt(libc, t, i, k, items[0]) && Blanks(t, k, l) && ItemsGoTo(libc, t, l, j, items)
  }

  /** From the separator after the first item on. */
  ghost predicate ItemsGoTo(libc: Libc, t: string, l: nat, j: nat, items: seq<Json>)
    requires items != []
    decreases items, 0
  {
    if |items| == 1 then ClosedBy(t, l, j, ']')
    else l < |t| && t[l] == ',' && exists m: nat :: Blanks(t, l + 1, m) && ItemsAt(libc, t, m, j, items[1..])
  }

  /** A name, a colon and a value. */
  ghost predicate MemberAt(libc: Libc, t: string, i: nat, j: nat, m: Member)
    decreases m
  {
    i < j <= |t| &&
    exists a: nat, b: nat, c: nat :: StringAt(t, i, a, m.name) && Blanks(t, a, b) && ClosedBy(t, b, b + 1, ':') && Blanks(t, b + 1, c)
                      && ValueAt(libc, t, c, j, m.value)
  }

  ghost predicate MembersAt(libc: Libc, t: string, i: nat, j: nat, members: seq<Member>)
    requires members != []
    decreases members, 1
  {
    i < j <= |t| &&
    exists k: nat, l: nat :: MemberAt(libc, t, i, k, members[0]) && Blanks(t, k, l) && MembersGoTo(libc, t, l, j, members)
  }

  ghost predicate MembersGoTo(libc: Libc, t: string, l: nat, j: nat, members: seq<Member>)
    requires members != []
    decreases members, 0
  {
    if |members| == 1 then ClosedBy(t, l, j, '}')
    else l < |t| && t[l] == ',' && exists m: nat :: Blanks(t, l + 1, m) && MembersAt(libc, t, m, j, members[1..])
  }

  // ---------- Every text of the grammar is parsed ----------

  lemma NumberStarts(w: string)
    requires NumberWord(w)
    ensures w != "" && (w[0] == '-' || Ten(w[0]))
  {
    var a: nat, b: nat, c: nat :| NumberParts(w, a, b, c);
    assert w[a..b] != "" && w[a] == w[a..b][0];
  }

  /** A value begins with a character that tells its kind and is no white space and no closing bracket. */
  lemma ValueStarts(libc: Libc, t: string, i: nat, j: nat, e: Json)
    requires ValueAt(libc, t, i, j, e)
    ensures !White(t[i]) && t[i] != ']' && t[i] != '}'
  {
    assert t[i] == t[i..j][0];
    if e.Number? { NumberStarts(t[i..j]); }
  }

  lemma WordRead(libc: Libc, t: string, i: nat, j: nat, e: Json)
    requires ValueAt(libc, t, i, j, e) && (e.Null? || e.Bool?)
    ensures ParseValue(libc, t[i..]) == Some((e, Skip(t[j..])))
  {
    assert t[i..] == t[i..j] + t[j..];
    WordBack(libc, e, t[i..j], t[j..]);
  }

  lemma NumberValueRead(libc: Libc, t: string, i: nat, j: nat, e: Json)
    requires ValueAt(libc, t, i, j, e) && e.Number? && Ends(t[j..])
    ensures ParseValue(libc, t[i..]) == Some((e, Skip(t[j..])))
  {
    hide Skip, NumberWord, NumberEnd, Ends, ParseItems, ParseMembers, ParseString, ParseWord;
    var w := t[i..j];
    NumberRead(w, t[j..]);
    NumberStarts(w);
    assert t[i..] == w + t[j..] && t[i..][..|w|] == w && t[i..][|w|..] == t[j..] && t[i..][0] == w[0];
    DigitChar(w[0]);
  }

  lemma {:induction false} ValueRead(libc: Libc, t: string, i: nat, j: nat, e: Json)
    requires ValueAt(libc, t, i, j, e) && (e.Number? ==> Ends(t[j..]))
    ensures ParseValue(libc, t[i..]) == Some((e, Skip(t[j..])))
    decreases e
  {
    hide Skip, NumberWord, StringAt, Ends, ParseValue, ParseItems, ParseMembers, ItemsAt, MembersAt, White, ParseString;
    match e
    case Null => WordRead(libc, t, i, j, e);
    case Bool(_) => WordRead(libc, t, i, j, e);
    case Number(_) => NumberValueRead(libc, t, i, j, e);
    case String(s) =>
      StringRead(t, i, j, s);
      QuoteStarts(t, i, j, s);
      StringValue(libc, t[i..]);
    case Array(items) =>
      var k: nat :| Blanks(t, i + 1, k) && if items == [] then ClosedBy(t, k, j, ']') else ItemsAt(libc, t, k, j, items);
      assert t[i..] == "[" + t[i + 1..];
      ArrayOpened(libc, t[i + 1..]);
      if items == [] {
        QuoteIsBlack();
        SkipAt(t, i + 1, k);
        assert t[k..][1..] == t[j..];
      } else {
        ItemsStart(libc, t, k, j, items);
        SkipAt(t, i + 1, k);
        ItemsRead(libc, t, k, j, items);
      }
    case Object(members) =>
      var k: nat :| Blanks(t, i + 1, k) && if members == [] then ClosedBy(t, k, j, '}') else MembersAt(libc, t, k, j, members);
      assert t[i..] == "{" + t[i + 1..];
      ObjectOpened(libc, t[i + 1..]);
      if members == [] {
        QuoteIsBlack();
        SkipAt(t, i + 1, k);
        assert t[k..][1..] == t[j..];
      } else {
        MembersStart(libc, t, k, j, members);
        SkipAt(t, i + 1, k);
        MembersRead(libc, t, k, j, members);
      }
  }

  lemma QuoteStarts(t: string, i: nat, j: nat, s: string)
    requires StringAt(t, i, j, s)
    ensures i < j <= |t| && t[i] == '\"'
  {
  }

  lemma ItemsStart(libc: Libc, t: string, i: nat, j: nat, items: seq<Json>)
    requires items != [] && ItemsAt(libc, t, i, j, items)
    ensures i < |t| && !White(t[i]) && t[i] != ']'
  {
    var k: nat, l: nat :| ValueAt(libc, t, i, k, items[0]) && Blanks(t, k, l) && ItemsGoTo(libc, t, l, j, items);
    ValueStarts(libc, t, i, k, items[0]);
  }

  lemma MembersStart(libc: Libc, t: string, i: nat, j: nat, members: seq<Member>)
    requires members != [] && MembersAt(libc, t, i, j, members)
    ensures i < |t| && !White(t[i]) && t[i] != '}'
  {
    var k: nat, l: nat :| MemberAt(libc, t, i, k, members[0]) && Blanks(t, k, l) && MembersGoTo(libc, t, l, j, members);
    QuoteIsBlack();
  }

  lemma NextItems(libc: Libc, t: string, l: nat, j: nat, items: seq<Json>) returns (m: nat)
    requires |items| > 1 && ItemsGoTo(libc, t, l, j, items)
    ensures l < |t| && t[l] == ',' && Blanks(t, l + 1, m) && ItemsAt(libc, t, m, j, items[1..])
  {
    m :| Blanks(t, l + 1, m) && ItemsAt(libc, t, m, j, items[1..]);
  }

  lemma NextMembers(libc: Libc, t: string, l: nat, j: nat, members: seq<Member>) returns (m: nat)
    requires |members| > 1 && MembersGoTo(libc, t, l, j, members)
    ensures l < |t| && t[l] == ',' && Blanks(t, l + 1, m) && MembersAt(libc, t, m, j, members[1..])
  {
    m :| Blanks(t, l + 1, m) && MembersAt(libc, t, m, j, members[1..]);
  }

  /** White space or a separator ends a number. */
  lemma SeparatorEnds(t: string, k: nat, l: nat)
    requires Blanks(t, k, l) && l < |t| && t[l] in ",]}"
    ensures Ends(t[k..]) && Skip(t[k..]) == t[l..] && t[l..] != "" && t[l..][0] == t[l] && t[l..][1..] == t[l + 1..]
  {
    SkipAt(t, k, l);
    assert t[k..][0] == t[k];
  }

  lemma {:induction false} ItemsRead(libc: Libc, t: string, i: nat, j: nat, items: seq<Json>)
    requires items != [] && ItemsAt(libc, t, i, j, items)
    ensures ParseItems(libc, t[i..]) == Some((items, Skip(t[j..])))
    decreases items
  {
    hide Skip, Ends, ParseValue, ParseItems, ParseMembers, ValueAt, White;
    var k: nat, l: nat :| ValueAt(libc, t, i, k, items[0]) && Blanks(t, k, l) && ItemsGoTo(libc, t, l, j, items);
    SeparatorEnds(t, k, l);
    ValueRead(libc, t, i, k, items[0]);
    ItemsGoOn(libc, t[i..], items[0], t[l..]);
    if |items| == 1 {
      assert items == [items[0]];
    } else {
      var m := NextItems(libc, t, l, j, items);
      ItemsStart(libc, t, m, j, items[1..]);
      SkipAt(t, l + 1, m);
      ItemsRead(libc, t, m, j, items[1..]);
      assert items == [items[0]] + items[1..];
    }
  }

  lemma {:induction false} MemberRead(libc: Libc, t: string, i: nat, j: nat, m: Member)
    requires MemberAt(libc, t, i, j, m) && Ends(t[j..])
    ensures ParseMember(libc, t[i..]) == Some((m, Skip(t[j..])))
    decreases m
  {
    hide Skip, Ends, ParseValue, ValueAt, White, StringAt, ParseString;
    var a: nat, b: nat, c: nat :| StringAt(t, i, a, m.name) && Blanks(t, a, b) && ClosedBy(t, b, b + 1, ':') && Blanks(t, b + 1, c)
                                  && ValueAt(libc, t, c, j, m.value);
    StringRead(t, i, a, m.name);
    QuoteIsBlack();
    SkipAt(t, a, b);
    assert t[b..][0] == ':' && t[b..][1..] == t[b + 1..];
    ValueInside(libc, t, c, j, m.value);
    ValueStarts(libc, t, c, j, m.value);
    SkipAt(t, b + 1, c);
    ValueRead(libc, t, c, j, m.value);
  }

  lemma ValueInside(libc: Libc, t: string, i: nat, j: nat, e: Json)
    requires ValueAt(libc, t, i, j, e)
    ensures i < j <= |t|
  {
  }

  lemma {:induction false} MembersRead(libc: Libc, t: string, i: nat, j: nat, members: seq<Member>)
    requires members != [] && MembersAt(libc, t, i, j, members)
    ensures ParseMembers(libc, t[i..]) == Some((members, Skip(t[j..])))
    decreases members
  {
    hide Skip, Ends, ParseMember, ParseMembers, MemberAt, White;
    var k: nat, l: nat :| MemberAt(libc, t, i, k, members[0]) && Blanks(t, k, l) && MembersGoTo(libc, t, l, j, members);
    SeparatorEnds(t, k, l);
    MemberRead(libc, t, i, k, members[0]);
    MembersGoOn(libc, t[i..], members[0], t[l..]);
    if |members| == 1 {
      assert members == [members[0]];
    } else {
      var m := NextMembers(libc, t, l, j, members);
      MembersStart(libc, t, m, j, members[1..]);
      SkipAt(t, l + 1, m);
      MembersRead(libc, t, m, j, members[1..]);
      assert members == [members[0]] + members[1..];
    }
  }

  // ---------- Only texts of the grammar are parsed ----------

  lemma WordFound(libc: Libc, t: string, i: nat, word: string, e: Json) returns (j: nat)
    requires i <= |t| && word != "" && ParseWord(t[i..], word, e).Some?
    ensures i < j <= |t| && t[i..j] == word && ParseWord(t[i..], word, e) == Some((e, Skip(t[j..])))
  {
    j := i + |word|;
    assert t[i..][..|word|] == word && t[i..j] == t[i..][..|word|] && t[i..][|word|..] == t[j..];
  }

  lemma NumberValueFound(libc: Libc, t: string, i: nat) returns (j: nat)
    requires i < |t| && ParseNumber(libc, t[i..]).Some?
    ensures var (e, r) := ParseNumber(libc, t[i..]).value; ValueAt(libc, t, i, j, e) && r == Skip(t[j..])
  {
    hide NumberEnd, NumberWord, Skip;
    NumberFound(t[i..]);
    j := i + NumberEnd(t[i..]).value;
    assert t[i..j] == t[i..][..j - i] && t[i..][j - i..] == t[j..];
  }

  lemma {:induction false} ValueFound(libc: Libc, t: string, i: nat) returns (j: nat)
    requires i <= |t| && ParseValue(libc, t[i..]).Some?
    ensures var (e, r) := ParseValue(libc, t[i..]).value; ValueAt(libc, t, i, j, e) && r == Skip(t[j..])
    decreases |t| - i, 1
  {
    hide Skip, NumberWord, StringAt, ParseItems, ParseMembers, ItemsAt, MembersAt, White, ParseString, ParseNumber, ParseWord;
    var s := t[i..];
    assert s[0] == t[i] && s[1..] == t[i + 1..];
    match s[0]
    case 'n' => j := WordFound(libc, t, i, "null", Null);
    case 't' => j := WordFound(libc, t, i, "true", Bool(true));
    case 'f' => j := WordFound(libc, t, i, "false", Bool(false));
    case '\"' =>
      j := StringFound(t, i);
      QuoteStarts(t, i, j, ParseString(s).value.0);
    case '[' => j := ArrayFound(libc, t, i);
    case '{' => j := ObjectFound(libc, t, i);
    case _ => j := NumberValueFound(libc, t, i);
  }

  lemma ArrayIs(libc: Libc, t: string, i: nat, k: nat, j: nat, items: seq<Json>)
    requires i < k < j <= |t| && t[i] == '[' && Blanks(t, i + 1, k)
    requires if items == [] then ClosedBy(t, k, j, ']') else ItemsAt(libc, t, k, j, items)
    ensures ValueAt(libc, t, i, j, Array(items))
  {
    hide ItemsAt, White;
  }

  lemma ObjectIs(libc: Libc, t: string, i: nat, k: nat, j: nat, members: seq<Member>)
    requires i < k < j <= |t| && t[i] == '{' && Blanks(t, i + 1, k)
    requires if members == [] then ClosedBy(t, k, j, '}') else MembersAt(libc, t, k, j, members)
    ensures ValueAt(libc, t, i, j, Object(members))
  {
    hide MembersAt, White;
  }

  lemma {:induction false} ArrayFound(libc: Libc, t: string, i: nat) returns (j: nat)
    requires i < |t| && t[i] == '[' && ParseValue(libc, t[i..]).Some?
    ensures var (e, r) := ParseValue(libc, t[i..]).value; ValueAt(libc, t, i, j, e) && r == Skip(t[j..])
    decreases |t| - i, 0
  {
    hide Skip, ParseItems, ParseValue, ItemsAt, White, ValueAt;
    var k := SkipEnds(t, i + 1);
    assert t[i..] == "[" + t[i + 1..];
    ArrayOpened(libc, t[i + 1..]);
    if k < |t| && t[k] == ']' {
      j := k + 1;
      assert t[k..][1..] == t[j..] && t[k..][0] == t[k];
      ArrayIs(libc, t, i, k, j, []);
    } else {
      assert k < |t| ==> t[k..][0] == t[k];
      j := ItemsFound(libc, t, k);
      ItemsInside(libc, t, k, j, ParseItems(libc, t[k..]).value.0);
      ArrayIs(libc, t, i, k, j, ParseItems(libc, t[k..]).value.0);
    }
  }

  lemma {:induction false} ObjectFound(libc: Libc, t: string, i: nat) returns (j: nat)
    requires i < |t| && t[i] == '{' && ParseValue(libc, t[i..]).Some?
    ensures var (e, r) := ParseValue(libc, t[i..]).value; ValueAt(libc, t, i, j, e) && r == Skip(t[j..])
    decreases |t| - i, 0
  {
    hide Skip, ParseMembers, ParseValue, MembersAt, White, ValueAt;
    var k := SkipEnds(t, i + 1);
    assert t[i..] == "{" + t[i + 1..];
    ObjectOpened(libc, t[i + 1..]);
    if k < |t| && t[k] == '}' {
      j := k + 1;
      assert t[k..][1..] == t[j..] && t[k..][0] == t[k];
      ObjectIs(libc, t, i, k, j, []);
    } else {
      assert k < |t| ==> t[k..][0] == t[k];
      j := MembersFound(libc, t, k);
      MembersInside(libc, t, k, j, ParseMembers(libc, t[k..]).value.0);
      ObjectIs(libc, t, i, k, j, ParseMembers(libc, t[k..]).value.0);
    }
  }

  lemma ItemsInside(libc: Libc, t: string, i: nat, j: nat, items: seq<Json>)
    requires items != [] && ItemsAt(libc, t, i, j, items)
    ensures i < j <= |t|
  {
  }

  lemma MembersInside(libc: Libc, t: string, i: nat, j: nat, members: seq<Member>)
    requires members != [] && MembersAt(libc, t, i, j, members)
    ensures i < j <= |t|
  {
  }

  lemma {:induction false} ItemsFound(libc: Libc, t: string, i: nat) returns (j: nat)
    requires i <= |t| && ParseItems(libc, t[i..]).Some?
    ensures var (items, r) := ParseItems(libc, t[i..]).value;
            items != [] && ItemsAt(libc, t, i, j, items) && r == Skip(t[j..])
    decreases |t| - i, 2
  {
    hide Skip, ParseValue, ParseItems, ValueAt, White;
    ItemsNeedOne(libc, t[i..]);
    var k := ValueFound(libc, t, i);
    var v := ParseValue(libc, t[i..]).value.0;
    ValueInside(libc, t, i, k, v);
    var l := SkipEnds(t, k);
    ItemsGoOn(libc, t[i..], v, t[l..]);
    assert t[l..][0] == t[l] && t[l..][1..] == t[l + 1..];
    if t[l] == ']' {
      j := l + 1;
      OneItem(libc, t, i, k, l, v);
    } else {
      var m := SkipEnds(t, l + 1);
      j := ItemsFound(libc, t, m);
      MoreItems(libc, t, i, k, l, m, j, v, ParseItems(libc, t[m..]).value.0);
    }
  }

  lemma ItemsNeedOne(libc: Libc, s: string)
    requires ParseItems(libc, s).Some?
    ensures ParseValue(libc, s).Some? && ParseValue(libc, s).value.1 != ""
  {
    hide ParseValue;
  }

  lemma OneItem(libc: Libc, t: string, i: nat, k: nat, l: nat, v: Json)
    requires ValueAt(libc, t, i, k, v) && i < k && Blanks(t, k, l) && l < |t| && t[l] == ']'
    ensures ItemsAt(libc, t, i, l + 1, [v])
  {
    hide ValueAt, White;
    assert ItemsGoTo(libc, t, l, l + 1, [v]);
  }

  lemma MoreItems(libc: Libc, t: string, i: nat, k: nat, l: nat, m: nat, j: nat, v: Json, more: seq<Json>)
    requires ValueAt(libc, t, i, k, v) && i < k && Blanks(t, k, l) && l < |t| && t[l] == ',' && Blanks(t, l + 1, m)
    requires more != [] && ItemsAt(libc, t, m, j, more)
    ensures ItemsAt(libc, t, i, j, [v] + more)
  {
    hide ValueAt, White;
    var items := [v] + more;
    assert items[1..] == more;
    ItemsInside(libc, t, m, j, more);
    assert ItemsGoTo(libc, t, l, j, items);
  }

  lemma {:induction false} MemberFound(libc: Libc, t: string, i: nat) returns (j: nat)
    requires i <= |t| && ParseMember(libc, t[i..]).Some?
    ensures var (m, r) := ParseMember(libc, t[i..]).value; MemberAt(libc, t, i, j, m) && r == Skip(t[j..])
    decreases |t| - i, 2
  {
    hide Skip, ParseValue, ValueAt, White, StringAt, ParseString;
    var a := StringFound(t, i);
    var name := ParseString(t[i..]).value.0;
    QuoteStarts(t, i, a, name);
    var b := SkipEnds(t, a);
    assert t[b..][0] == t[b] && t[b..][1..] == t[b + 1..];
    var c := SkipEnds(t, b + 1);
    j := ValueFound(libc, t, c);
    var v := ParseValue(libc, t[c..]).value.0;
    ValueInside(libc, t, c, j, v);
    assert ClosedBy(t, b, b + 1, ':');
    assert StringAt(t, i, a, Member(name, v).name) && ValueAt(libc, t, c, j, Member(name, v).value);
  }

  lemma {:induction false} MembersFound(libc: Libc, t: string, i: nat) returns (j: nat)
    requires i <= |t| && ParseMembers(libc, t[i..]).Some?
    ensures var (members, r) := ParseMembers(libc, t[i..]).value;
            members != [] && MembersAt(libc, t, i, j, members) && r == Skip(t[j..])
    decreases |t| - i, 3
  {
    hide Skip, ParseMember, ParseMembers, MemberAt, White;
    MembersNeedOne(libc, t[i..]);
    var k := MemberFound(libc, t, i);
    var v := ParseMember(libc, t[i..]).value.0;
    MemberInside(libc, t, i, k, v);
    var l := SkipEnds(t, k);
    MembersGoOn(libc, t[i..], v, t[l..]);
    assert t[l..][0] == t[l] && t[l..][1..] == t[l + 1..];
    if t[l] == '}' {
      j := l + 1;
      OneMember(libc, t, i, k, l, v);
    } else {
      var m := SkipEnds(t, l + 1);
      j := MembersFound(libc, t, m);
      MoreMembers(libc, t, i, k, l, m, j, v, ParseMembers(libc, t[m..]).value.0);
    }
  }

  lemma MembersNeedOne(libc: Libc, s: string)
    requires ParseMembers(libc, s).Some?
    ensures ParseMember(libc, s).Some? && ParseMember(libc, s).value.1 != ""
  {
    hide ParseMember;
  }

  lemma MemberInside(libc: Libc, t: string, i: nat, j: nat, m: Member)
    requires MemberAt(libc, t, i, j, m)
    ensures i < j <= |t|
  {
  }

  lemma OneMember(libc: Libc, t: string, i: nat, k: nat, l: nat, v: Member)
    requires MemberAt(libc, t, i, k, v) && i < k && Blanks(t, k, l) && l < |t| && t[l] == '}'
    ensures MembersAt(libc, t, i, l + 1, [v])
  {
    hide MemberAt, White;
    assert MembersGoTo(libc, t, l, l + 1, [v]);
  }

  lemma MoreMembers(libc: Libc, t: string, i: nat, k: nat, l: nat, m: nat, j: nat, v: Member, more: seq<Member>)
    requires MemberAt(libc, t, i, k, v) && i < k && Blanks(t, k, l) && l < |t| && t[l] == ',' && Blanks(t, l + 1, m)
    requires more != [] && MembersAt(libc, t, m, j, more)
    ensures MembersAt(libc, t, i, j, [v] + more)
  {
    hide MemberAt, White;
    var members := [v] + more;
    assert members[1..] == more;
    MembersInside(libc, t, m, j, more);
    assert MembersGoTo(libc, t, l, j, members);
  }

  // ---------- Both together ----------

  /** The text is a value with white space around it. */
  ghost predicate Denotes(libc: Libc, t: string, e: Json) {
    exists i: nat, j: nat :: Blanks(t, 0, i) && ValueAt(libc, t, i, j, e) && Blanks(t, j, |t|)
  }

  /** The parser accepts exactly the texts of the grammar, with the trees that they denote. */
  lemma ParsesExactly(libc: Libc, t: string, e: Json)
    ensures Parse(libc, t) == Some((e, "")) <==> Denotes(libc, t, e)
  {
    hide Skip, ParseValue, ValueAt, White;
    assert t[0..] == t;
    if Denotes(libc, t, e) {
      var i: nat, j: nat :| Blanks(t, 0, i) && ValueAt(libc, t, i, j, e) && Blanks(t, j, |t|);
      ValueInside(libc, t, i, j, e);
      ValueStarts(libc, t, i, j, e);
      SkipAt(t, 0, i);
      BlanksEnd(t, j);
      ValueRead(libc, t, i, j, e);
    }
    if Parse(libc, t) == Some((e, "")) {
      var i := SkipEnds(t, 0);
      var j := ValueFound(libc, t, i);
      ValueInside(libc, t, i, j, e);
      var k := SkipEnds(t, j);
      assert |t[k..]| == |t| - k;
      assert Blanks(t, j, |t|);
    }
  }

  lemma BlanksEnd(t: string, j: nat)
    requires Blanks(t, j, |t|)
    ensures Ends(t[j..]) && Skip(t[j..]) == ""
  {
    SkipAt(t, j, |t|);
  }

  /** No text denotes two trees. */
  lemma DenotesOne(libc: Libc, t: string, d: Json, e: Json)
    requires Denotes(libc, t, d) && Denotes(libc, t, e)
    ensures d == e
  {
    ParsesExactly(libc, t, d);
    ParsesExactly(libc, t, e);
  }

  // ---------- What the serialiser's spelling means ----------

  /** The value of four hexadecimal digits. */
  function HexValue(c: char): nat
    requires Hex(c)
  {
    if '0' <= c <= '9' then c as int - 48 else if 'A' <= c <= 'F' then c as int - 55 else c as int - 87
  }

  function CodeUnit(w: string): nat
    requires |w| == 4 && Hex(w[0]) && Hex(w[1]) && Hex(w[2]) && Hex(w[3])
  {
    HexValue(w[0]) * 4096 + HexValue(w[1]) * 256 + HexValue(w[2]) * 16 + HexValue(w[3])
  }

  /** What a backslash and one more character stand for. */
  function ShortEscape(c: char): Option<char> {
    match c
    case '\"' => Some('\"')
    case '\\' => Some('\\')
    case '/' => Some('/')
    case 'b' => Some('\U{0008}')
    case 'f' => Some('\U{000C}')
    case 'n' => Some('\n')
    case 'r' => Some('\r')
    case 't' => Some('\t')
    case _ => None
  }

  /** The string that a spelling stands for, by section 7 of RFC 8259; escaped surrogates are not covered. */
  function Unescape(w: string): Option<string> {
    if w == "" then Some("")
    else if w[0] != '\\' then
      if w[0] == '\"' || w[0] < ' ' then None else Before(w[0], Unescape(w[1..]))
    else if |w| == 1 then None
    else if w[1] != 'u' then
      var c := ShortEscape(w[1]);
      if c.None? then None else Before(c.value, Unescape(w[2..]))
    else if |w| > 5 && Hex(w[2]) && Hex(w[3]) && Hex(w[4]) && Hex(w[5]) && CodeUnit(w[2..6]) < 0xD800 then
      Before(CodeUnit(w[2..6]) as char, Unescape(w[6..]))
    else None
  }

  function Before(c: char, s: Option<string>): Option<string> {
    if s.None? then None else Some([c] + s.value)
  }

  /** The escape of one character stands for that character. */
  lemma UnescapeChar(c: char, w: string)
    ensures Unescape(EscapeChar(c) + w) == Before(c, Unescape(w))
  {
    var x := EscapeChar(c);
    if |x| == 6 {
      UnescapeControl(c, w);
    } else {
      hide Unescape, EscapeChar;
      var t := x + w;
      assert t[0] == x[0] && t[|x|..] == w && (|x| > 1 ==> t[1] == x[1]);
      UnescapeStep(t);
      ShortOrPlain(c);
    }
  }

  lemma ShortOrPlain(c: char)
    requires |EscapeChar(c)| != 6
    ensures var x := EscapeChar(c);
            || (x == [c] && c >= ' ' && c != '\"' && c != '\\')
            || (|x| == 2 && x[0] == '\\' && x[1] != 'u' && ShortEscape(x[1]) == Some(c))
  {
  }

  lemma UnescapeControl(c: char, w: string)
    requires |EscapeChar(c)| == 6
    ensures Unescape(EscapeChar(c) + w) == Before(c, Unescape(w))
  {
    var x := ControlSpelled(c);
    hide Unescape, EscapeChar, CodeUnit, Hex;
    SixCharacters(x, w);
    UnescapeStep("\\u" + x + w);
  }

  lemma ControlSpelled(c: char) returns (x: string)
    requires |EscapeChar(c)| == 6
    ensures EscapeChar(c) == "\\u" + x && |x| == 4 && Hex(x[0]) && Hex(x[1]) && Hex(x[2]) && Hex(x[3]) && CodeUnit(x) == c as int < ' ' as int
  {
    SixLong(c);
    ControlDigits(c);
    x := "00" + [HexDigit(c as int / 16), HexDigit(c as int % 16)];
    hide HexDigit, Hex, CodeUnit, EscapeChar;
    CutSix(HexDigit(c as int / 16), HexDigit(c as int % 16));
  }

  lemma SixLong(c: char)
    requires |EscapeChar(c)| == 6
    ensures c < ' ' && EscapeChar(c) == "\\u00" + [HexDigit(c as int / 16), HexDigit(c as int % 16)]
  {
    hide HexDigit;
  }

  lemma CutSix(h: char, l: char)
    ensures "\\u00" + [h, l] == "\\u" + ("00" + [h, l])
  {
  }

  lemma SixCharacters(x: string, w: string)
    requires |x| == 4
    ensures var t := "\\u" + x + w;
            && |t| > 5 && t[0] == '\\' && t[1] == 'u' && t[2] == x[0] && t[3] == x[1] && t[4] == x[2] && t[5] == x[3]
            && t[2..6] == x && t[6..] == w
  {
  }

  lemma UnescapeStep(w: string)
    requires w != ""
    ensures w[0] != '\\' && w[0] != '\"' && w[0] >= ' ' ==> Unescape(w) == Before(w[0], Unescape(w[1..]))
    ensures w[0] == '\\' && |w| > 1 && w[1] != 'u' && ShortEscape(w[1]).Some? ==>
              Unescape(w) == Before(ShortEscape(w[1]).value, Unescape(w[2..]))
    ensures w[0] == '\\' && |w| > 5 && w[1] == 'u' && Hex(w[2]) && Hex(w[3]) && Hex(w[4]) && Hex(w[5]) && CodeUnit(w[2..6]) < 0xD800 ==>
              Unescape(w) == Before(CodeUnit(w[2..6]) as char, Unescape(w[6..]))
  {
  }

  lemma ControlDigits(c: char)
    requires c < ' '
    ensures var x := "00" + [HexDigit(c as int / 16), HexDigit(c as int % 16)];
            Hex(x[0]) && Hex(x[1]) && Hex(x[2]) && Hex(x[3]) && CodeUnit(x) == c as int
  {
    DigitValue(c as int / 16);
    DigitValue(c as int % 16);
  }

  lemma DigitValue(d: nat)
    requires d < 16
    ensures Hex(HexDigit(d)) && HexValue(HexDigit(d)) == d
  {
  }

  /** The serialiser's spelling of a string stands for that string. */
  lemma {:induction false} UnescapeBack(s: string)
    ensures Unescape(Escape(s)) == Some(s)
  {
    hide EscapeChar, Unescape;
    if s == "" {
      assert Unescape("") == Some("") by { EmptyMeansEmpty(); }
    } else {
      UnescapeBack(s[1..]);
      UnescapeChar(s[0], Escape(s[1..]));
      assert s == [s[0]] + s[1..];
    }
  }

  lemma EmptyMeansEmpty()
    ensures Unescape("") == Some("")
  {
  }

  // ---------- Layout ----------

  /** Indentation is two blanks to a level, on a new line; compact text has none. */
  lemma {:induction false} Indentation(n: nat)
    ensures |Spaces(n)| == 2 * n && forall i | 0 <= i < 2 * n :: Spaces(n)[i] == ' '
  {
    if n > 0 { Indentation(n - 1); }
  }

  lemma LayoutIs(pretty: bool, n: nat)
    ensures if pretty then |NewLine(true, n)| == 2 * n + 1 && NewLine(true, n)[0] == '\n' && Deeper(true, n) == n + 1
            else NewLine(false, n) == "" && Deeper(false, n) == n
  {
    Indentation(n);
  }

  /** Where line breaks, commas and colons stand: two items, one member, and none. */
  lemma ArrayLayout(libc: Libc, a: Json, b: Json, pretty: bool, n: nat)
    ensures var d := Deeper(pretty, n);
            Text(libc, Array([a, b]), pretty, n)
            == "[" + (NewLine(pretty, d) + Text(libc, a, pretty, d) + "," + NewLine(pretty, d) + Text(libc, b, pretty, d)) + NewLine(pretty, n) + "]"
  {
    TwoItems(libc, Array([a, b]), pretty, Deeper(pretty, n));
    hide Deeper, NewLine, ItemsText;
    assert Array([a, b]).items == [a, b];
  }

  lemma TwoItems(libc: Libc, e: Json, pretty: bool, n: nat)
    requires e.Array? && |e.items| == 2
    ensures ItemsText(libc, e, 0, pretty, n)
            == NewLine(pretty, n) + Text(libc, e.items[0], pretty, n) + "," + NewLine(pretty, n) + Text(libc, e.items[1], pretty, n)
  {
    hide Text, NewLine;
    assert ItemsText(libc, e, 2, pretty, n) == "";
    assert ItemsText(libc, e, 1, pretty, n) == "," + NewLine(pretty, n) + Text(libc, e.items[1], pretty, n);
  }

  lemma ObjectLayout(libc: Libc, name: string, v: Json, pretty: bool, n: nat)
    ensures var d := Deeper(pretty, n);
            Text(libc, Object([Member(name, v)]), pretty, n)
            == "{" + (NewLine(pretty, d) + Quoted(name) + (if pretty then ": " else ":") + Text(libc, v, pretty, d)) + NewLine(pretty, n) + "}"
    ensures Text(libc, Array([]), pretty, n) == "[]" && Text(libc, Object([]), pretty, n) == "{}"
  {
    OneMemberText(libc, Object([Member(name, v)]), pretty, Deeper(pretty, n));
    hide Deeper, NewLine, Quoted;
    assert Object([Member(name, v)]).members == [Member(name, v)];
  }

  lemma OneMemberText(libc: Libc, e: Json, pretty: bool, n: nat)
    requires e.Object? && |e.members| == 1
    ensures var m := e.members[0];
            MembersText(libc, e, 0, pretty, n)
            == NewLine(pretty, n) + Quoted(m.name) + (if pretty then ": " else ":") + Text(libc, m.value, pretty, n)
  {
    hide Text, NewLine, Quoted;
    assert MembersText(libc, e, 1, pretty, n) == "";
  }
}
