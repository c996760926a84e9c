/**
 The parser of vox_json.c over the scanner of vox_scanner.c, and the serialiser with its writing context.

 The scanner moves through the text and skips white space after each step. Every parse function is proved to agree with
 the recursive description of parsing in module Json: in the value, in whether it fails, and in what it leaves unread.
 The serialiser appends to a text of which the buffer receives what fits; the two passes of vox_json_to_string are one
 that counts and one that writes.
 */
module JsonCode {
  import opened Prelude
  import opened Json

  // ---------- vox_scanner.c ----------

  /** The scanner with both auto-skip flags set, as the parser uses it. */
  class Scanner {
    const text: string
    var cur: nat

    ghost predicate Valid()
      reads this
    {
      cur <= |text|
    }

    /** What is left to read. */
    ghost function Rest(): string
      reads this
      requires Valid()
    {
      text[cur..]
    }

    constructor (text: string)
      ensures Valid() && this.text == text && Rest() == Skip(text)
    {
      this.text := text;
      cur := 0;
      new;
      AutoSkip();
    }

    method AutoSkip()
      requires Valid()
      modifies this
      ensures Valid() && Rest() == Skip(old(Rest()))
    {
      while cur < |text| && IsSpace(text[cur])
        invariant Valid() && Skip(Rest()) == Skip(old(Rest()))
      {
        assert Rest()[0] == text[cur] && Rest()[1..] == text[cur + 1..];
        cur := cur + 1;
      }
    }

    predicate Eof()
      reads this
    {
      cur >= |text|
    }

    /** -1 at the end, as a missing value. */
    function PeekChar(): (c: Option<char>)
      reads this
      requires Valid()
      ensures c == if Rest() == "" then None else Some(Rest()[0])
    {
      if cur >= |text| then None else Some(text[cur])
    }

    method GetChar() returns (c: Option<char>)
      requires Valid()
      modifies this
      ensures Valid() && c == old(PeekChar())
      ensures c.None? ==> cur == old(cur)
      ensures c.Some? ==> Rest() == Skip(old(Rest())[1..])
    {
      if cur >= |text| {
        return None;
      }
      c := Some(text[cur]);
      assert Rest()[1..] == text[cur + 1..];
      cur := cur + 1;
      AutoSkip();
    }

    method SkipCount(count: nat)
      requires Valid()
      modifies this
      ensures Valid() && Rest() == Skip(old(Rest())[if count < |old(Rest())| then count else |old(Rest())|..])
    {
      var n := if count > |text| - cur then |text| - cur else count;
      assert Rest()[n..] == text[cur + n..];
      cur := cur + n;
      AutoSkip();
    }
  }

  // ---------- The parser ----------

  /** The outcome of a parsing method agrees with the specification: the value and what is left, or a failure. */
  ghost predicate Agrees<T>(r: Option<T>, sc: Scanner, p: Parsed<T>)
    reads sc
    requires sc.Valid()
  {
    match p
    case None => r.None?
    case Some(pair) => r == Some(pair.0) && sc.Rest() == pair.1
  }

  method ScanWord(sc: Scanner, word: string, e: Json) returns (r: Option<Json>)
    requires sc.Valid() && word != ""
    modifies sc
    ensures sc.Valid() && Agrees(r, sc, ParseWord(old(sc.Rest()), word, e))
    ensures r.None? ==> sc.cur == old(sc.cur)
  {
    var n := |word|;
    if |sc.text| - sc.cur >= n && sc.text[sc.cur..sc.cur + n] == word {
      assert sc.Rest()[..n] == sc.text[sc.cur..sc.cur + n];
      sc.SkipCount(n);
      r := Some(e);
    } else {
      assert |sc.Rest()| >= n ==> sc.Rest()[..n] == sc.text[sc.cur..sc.cur + n];
      r := None;
    }
  }

  /** The loops over digits. */
  method ScanDigits(s: string, i: nat) returns (j: nat)
    requires i <= |s|
    ensures j == DigitsEnd(s, i)
  {
    j := i;
    while j < |s| && '0' <= s[j] <= '9'
      invariant i <= j <= |s| && DigitsEnd(s, j) == DigitsEnd(s, i)
    {
      j := j + 1;
    }
  }

  /** The fraction part of parse_number. */
  method ScanFraction(s: string, i: nat) returns (j: Option<nat>)
    requires i <= |s|
    ensures j == FractionEnd(s, i)
  {
    var p := i;
    if p < |s| && s[p] == '.' {
      p := p + 1;
      if p >= |s| || s[p] < '0' || s[p] > '9' {
        return None;
      }
      p := ScanDigits(s, p);
    }
    j := Some(p);
  }

  /** The exponent part of parse_number. */
  method ScanExponent(s: string, i: nat) returns (j: Option<nat>)
    requires i <= |s|
    ensures j == ExponentEnd(s, i)
  {
    var p := i;
    if p < |s| && (s[p] == 'e' || s[p] == 'E') {
      p := p + 1;
      if p < |s| && (s[p] == '+' || s[p] == '-') {
        p := p + 1;
      }
      if p >= |s| || s[p] < '0' || s[p] > '9' {
        return None;
      }
      p := ScanDigits(s, p);
    }
    j := Some(p);
  }

  /** The scan of parse_number over the unread text s; None where the code reports an invalid format. */
  method ScanNumber(s: string) returns (len: Option<nat>)
    requires s != ""
    ensures len == NumberEnd(s)
  {
    var p: nat := 0;
    if Peek(s, p) == '-' {
      p := p + 1;
    }
    if Peek(s, p) == '0' {
      p := p + 1;
    } else if '1' <= Peek(s, p) <= '9' {
      p := ScanDigits(s, p + 1);
    } else {
      return None;
    }
    NoMoreDigits(s);
    if 1 <= p <= 2 && s[p - 1] == '0' && p < |s| && '0' <= s[p] <= '9' {
      return None;
    }
    var f := ScanFraction(s, p);
    if f.None? {
      return None;
    }
    len := ScanExponent(s, f.value);
  }

  /** After a run of digits comes no digit. */
  lemma {:induction false} RunEnds(s: string, i: nat)
    requires i <= |s|
    ensures DigitsEnd(s, i) < |s| ==> !IsDigit(s[DigitsEnd(s, i)])
    decreases |s| - i
  {
    if i < |s| && IsDigit(s[i]) {
      RunEnds(s, i + 1);
    }
  }

  lemma NoMoreDigits(s: string)
    requires s != ""
    ensures var i := if s[0] == '-' then 1 else 0;
            i < |s| ==> !IsDigit(Peek(s, DigitsEnd(s, i + 1)))
  {
    var i := if s[0] == '-' then 1 else 0;
    if i < |s| {
      RunEnds(s, i + 1);
    }
  }

  method ScanNumberValue(libc: Libc, sc: Scanner) returns (r: Option<Json>)
    requires sc.Valid() && sc.Rest() != ""
    modifies sc
    ensures sc.Valid() && Agrees(r, sc, ParseNumber(libc, old(sc.Rest())))
    ensures r.None? ==> sc.cur == old(sc.cur)
  {
    var s := sc.text[sc.cur..];
    var len := ScanNumber(s);
    if len.None? {
      return None;
    }
    var value := libc.strtod(s[..len.value]);
    if value.None? {
      return None;
    }
    sc.SkipCount(len.value);
    r := Some(Number(value.value));
  }

  /** The loop of parse_string over the unread text; None for an unterminated string or a bad escape. */
  method ScanStringEnd(s: string) returns (j: Option<nat>)
    ensures j == StringEnd(s, 0)
  {
    var p := 0;
    while p < |s| && s[p] != '\"'
      invariant p <= |s| && StringEnd(s, p) == StringEnd(s, 0)
      decreases |s| - p
    {
      if s[p] == '\\' {
        p := p + 1;
        if p >= |s| {
          return None;
        }
        if s[p] == 'u' {
          p := p + 1;
          ghost var q := p;
          var i := 0;
          while i < 4
            invariant 0 <= i <= 4 && p == q + i <= |s|
            invariant forall k | q <= k < p :: IsHex(s[k])
          {
            if p >= |s| || !IsHex(s[p]) {
              return None;
            }
            p := p + 1;
            i := i + 1;
          }
        } else {
          p := p + 1;
        }
      } else {
        p := p + 1;
      }
    }
    if p >= |s| {
      return None;
    }
    j := Some(p);
  }

  lemma NoQuote(s: string)
    requires s == "" || s[0] != '\"'
    ensures ParseString(s) == None
  {
  }

  lemma InQuotes(s: string)
    requires s != "" && s[0] == '\"'
    ensures var t := Skip(s[1..]);
            ParseString(s) == match StringEnd(t, 0)
                              case None => None
                              case Some(j) => Some((t[..j], Skip(t[j + 1..])))
  {
    hide Skip, StringEnd;
  }

  lemma AtQuote(s: string, n: nat)
    requires n < |s| && s[n] == '\"'
    ensures Skip(s[n..]) == s[n..] && s[n..][0] == '\"' && s[n..][1..] == s[n + 1..]
  {
  }

  /** parse_string after the opening quote. */
  method ScanStringRest(sc: Scanner) returns (r: Option<string>)
    requires sc.Valid()
    modifies sc
    ensures sc.Valid()
    ensures var t := old(sc.Rest());
            match StringEnd(t, 0)
            case None => r.None?
            case Some(j) => r == Some(t[..j]) && sc.Rest() == Skip(t[j + 1..])
  {
    hide Skip, StringEnd;
    var s := sc.text[sc.cur..];
    var j := ScanStringEnd(s);
    if j.None? {
      return None;
    }
    var len := j.value;
    AtQuote(s, len);
    sc.SkipCount(len);
    assert sc.Rest() == s[len..];
    if sc.PeekChar() != Some('\"') {
      return None;
    }
    var q := sc.GetChar();
    r := Some(s[..len]);
  }

  /** parse_string */
  method ScanString(sc: Scanner) returns (r: Option<string>)
    requires sc.Valid()
    modifies sc
    ensures sc.Valid() && Agrees(r, sc, ParseString(old(sc.Rest())))
  {
    hide Skip, StringEnd, ParseString;
    if sc.PeekChar() != Some('\"') {
      NoQuote(sc.Rest());
      return None;
    }
    InQuotes(sc.Rest());
    var q := sc.GetChar();
    r := ScanStringRest(sc);
  }

  /** The list read so far, followed by what the specification still reads. */
  ghost function Prepend<T>(done: seq<T>, p: Parsed<seq<T>>): Parsed<seq<T>> {
    match p
    case None => None
    case Some(pair) => Some((done + pair.0, pair.1))
  }

  lemma PrependNone<T>(p: Parsed<seq<T>>)
    ensures Prepend([], p) == p
  {
    if p.Some? {
      assert [] + p.value.0 == p.value.0;
    }
  }

  lemma PrependMore<T>(done: seq<T>, x: T, p: Parsed<seq<T>>)
    ensures Prepend(done, Prepend([x], p)) == Prepend(done + [x], p)
  {
    if p.Some? {
      assert done + ([x] + p.value.0) == done + [x] + p.value.0;
    }
  }

  /** What ParseItems does after its first value. */
  lemma ItemsStep(libc: Libc, s: string, x: Json, t: string)
    requires ParseValue(libc, s) == Some((x, t))
    ensures ParseItems(libc, s)
         == if t == "" then None
            else if t[0] == ']' then Some(([x], Skip(t[1..])))
            else if t[0] == ',' then Prepend([x], ParseItems(libc, Skip(t[1..])))
            else None
  {
    hide ParseValue, Skip;
  }

  lemma MembersStep(libc: Libc, s: string, x: Member, t: string)
    requires ParseMember(libc, s) == Some((x, t))
    ensures ParseMembers(libc, s)
         == if t == "" then None
            else if t[0] == '}' then Some(([x], Skip(t[1..])))
            else if t[0] == ',' then Prepend([x], ParseMembers(libc, Skip(t[1..])))
            else None
  {
    hide ParseMember, Skip;
  }

  lemma NoValue(libc: Libc, s: string)
    ensures ParseValue(libc, s).None? ==> ParseItems(libc, s).None?
    ensures ParseMember(libc, s).None? ==> ParseMembers(libc, s).None?
  {
    hide ParseValue, ParseMember;
  }

  /** The loop of parse_array. */
  method ScanItems(libc: Libc, sc: Scanner) returns (r: Option<seq<Json>>)
    requires sc.Valid()
    modifies sc
    ensures sc.Valid() && Agrees(r, sc, ParseItems(libc, old(sc.Rest())))
    decreases |sc.text| - sc.cur, 2
  {
    hide Skip, ParseValue, ParseItems, Prepend;
    ghost var goal := ParseItems(libc, sc.Rest());
    PrependNone(goal);
    var items: seq<Json> := [];
    while true
      invariant sc.Valid() && |sc.Rest()| <= |old(sc.Rest())|
      invariant goal == Prepend(items, ParseItems(libc, sc.Rest()))
      decreases |sc.text| - sc.cur
    {
      ghost var s := sc.Rest();
      NoValue(libc, s);
      NonePrepended(items, ParseItems(libc, s));
      var item := ScanValue(libc, sc);
      if item.None? {
        return None;
      }
      ghost var t, done := sc.Rest(), items;
      ItemsStep(libc, s, item.value, t);
      items := items + [item.value];
      var ch := sc.PeekChar();
      if ch == Some(']') {
        var c := sc.GetChar();
        LastPrepended(done, item.value, sc.Rest());
        break;
      } else if ch == Some(',') {
        var c := sc.GetChar();
        PrependMore(done, item.value, ParseItems(libc, sc.Rest()));
      } else {
        return None;
      }
    }
    r := Some(items);
  }

  lemma NonePrepended<T>(done: seq<T>, p: Parsed<seq<T>>)
    ensures p.None? ==> Prepend(done, p) == None
  {
  }

  lemma LastPrepended<T>(done: seq<T>, x: T, rest: string)
    ensures Prepend(done, Some(([x], rest))) == Some((done + [x], rest))
  {
  }

  lemma OpenArray(libc: Libc, s: string)
    requires s != "" && s[0] == '['
    ensures var t := Skip(s[1..]);
            ParseValue(libc, s)
            == if t != "" && t[0] == ']' then Some((Array([]), Skip(t[1..])))
               else var r := ParseItems(libc, t); if r.None? then None else Some((Array(r.value.0), r.value.1))
  {
    hide Skip, ParseItems, ParseMembers, ParseNumber, ParseWord, ParseString;
  }

  lemma OpenObject(libc: Libc, s: string)
    requires s != "" && s[0] == '{'
    ensures var t := Skip(s[1..]);
            ParseValue(libc, s)
            == if t != "" && t[0] == '}' then Some((Object([]), Skip(t[1..])))
               else var r := ParseMembers(libc, t); if r.None? then None else Some((Object(r.value.0), r.value.1))
  {
    hide Skip, ParseItems, ParseMembers, ParseNumber, ParseWord, ParseString;
  }

  /** parse_array */
  method ScanArray(libc: Libc, sc: Scanner) returns (r: Option<Json>)
    requires sc.Valid() && sc.Rest() != "" && sc.Rest()[0] == '['
    modifies sc
    ensures sc.Valid() && Agrees(r, sc, ParseValue(libc, old(sc.Rest())))
    decreases |sc.text| - sc.cur, 0
  {
    hide Skip, ParseValue, ParseItems;
    OpenArray(libc, sc.Rest());
    var c := sc.GetChar();
    if sc.PeekChar() == Some(']') {
      c := sc.GetChar();
      return Some(Array([]));
    }
    var items := ScanItems(libc, sc);
    r := if items.None? then None else Some(Array(items.value));
  }

  method ScanBoolean(sc: Scanner) returns (r: Option<Json>)
    requires sc.Valid() && sc.Rest() != ""
    modifies sc
    ensures sc.Valid()
    ensures old(sc.Rest())[0] == 't' ==> Agrees(r, sc, ParseWord(old(sc.Rest()), "true", Bool(true)))
    ensures old(sc.Rest())[0] == 'f' ==> Agrees(r, sc, ParseWord(old(sc.Rest()), "false", Bool(false)))
  {
    r := ScanWord(sc, "true", Bool(true));
    if r.None? {
      r := ScanWord(sc, "false", Bool(false));
    }
  }

  /** A name, the colon and the value. */
  method ScanMember(libc: Libc, sc: Scanner) returns (r: Option<Member>)
    requires sc.Valid()
    modifies sc
    ensures sc.Valid() && Agrees(r, sc, ParseMember(libc, old(sc.Rest())))
    decreases |sc.text| - sc.cur, 2
  {
    hide Skip, ParseValue, ParseString;
    if sc.PeekChar() != Some('\"') {
      NoQuote(sc.Rest());
      return None;
    }
    var name := ScanString(sc);
    if name.None? {
      return None;
    }
    if sc.PeekChar() != Some(':') {
      return None;
    }
    var c := sc.GetChar();
    var value := ScanValue(libc, sc);
    r := if value.None? then None else Some(Member(name.value, value.value));
  }

  /** The loop of parse_object. */
  method ScanMembers(libc: Libc, sc: Scanner) returns (r: Option<seq<Member>>)
    requires sc.Valid()
    modifies sc
    ensures sc.Valid() && Agrees(r, sc, ParseMembers(libc, old(sc.Rest())))
    decreases |sc.text| - sc.cur, 3
  {
    hide Skip, ParseMember, ParseMembers, Prepend;
    ghost var goal := ParseMembers(libc, sc.Rest());
    PrependNone(goal);
    var members: seq<Member> := [];
    while true
      invariant sc.Valid() && |sc.Rest()| <= |old(sc.Rest())|
      invariant goal == Prepend(members, ParseMembers(libc, sc.Rest()))
      decreases |sc.text| - sc.cur
    {
      ghost var s := sc.Rest();
      NoValue(libc, s);
      NonePrepended(members, ParseMembers(libc, s));
      var member := ScanMember(libc, sc);
      if member.None? {
        return None;
      }
      ghost var t, done := sc.Rest(), members;
      MembersStep(libc, s, member.value, t);
      members := members + [member.value];
      var ch := sc.PeekChar();
      if ch == Some('}') {
        var c := sc.GetChar();
        LastPrepended(done, member.value, sc.Rest());
        break;
      } else if ch == Some(',') {
        var c := sc.GetChar();
        PrependMore(done, member.value, ParseMembers(libc, sc.Rest()));
      } else {
        return None;
      }
    }
    r := Some(members);
  }

  /** parse_object */
  method ScanObject(libc: Libc, sc: Scanner) returns (r: Option<Json>)
    requires sc.Valid() && sc.Rest() != "" && sc.Rest()[0] == '{'
    modifies sc
    ensures sc.Valid() && Agrees(r, sc, ParseValue(libc, old(sc.Rest())))
    decreases |sc.text| - sc.cur, 0
  {
    hide Skip, ParseValue, ParseMembers;
    OpenObject(libc, sc.Rest());
    var c := sc.GetChar();
    if sc.PeekChar() == Some('}') {
      c := sc.GetChar();
      return Some(Object([]));
    }
    var members := ScanMembers(libc, sc);
    r := if members.None? then None else Some(Object(members.value));
  }

  method ScanValue(libc: Libc, sc: Scanner) returns (r: Option<Json>)
    requires sc.Valid()
    modifies sc
    ensures sc.Valid() && Agrees(r, sc, ParseValue(libc, old(sc.Rest())))
    decreases |sc.text| - sc.cur, 1
  {
    if sc.Eof() {
      return None;
    }
    var ch := sc.PeekChar().value;
    match ch
    case 'n' => r := ScanWord(sc, "null", Null);
    case 't' => r := ScanBoolean(sc);
    case 'f' => r := ScanBoolean(sc);
    case '\"' =>
      var s := ScanString(sc);
      r := if s.None? then None else Some(String(s.value));
    case '[' => r := ScanArray(libc, sc);
    case '{' => r := ScanObject(libc, sc);
    case _ =>
      if ch == '-' || '0' <= ch <= '9' {
        r := ScanNumberValue(libc, sc);
      } else {
        r := None;
      }
  }

  /** vox_json_parse: the tree, and how many bytes were used. */
  method ParseText(libc: Libc, text: string) returns (r: Option<Json>, used: nat)
    ensures match Parse(libc, text)
            case None => r.None?
            case Some(pair) => r == Some(pair.0) && used <= |text| && text[used..] == pair.1
  {
    var sc := new Scanner(text);
    r := ScanValue(libc, sc);
    used := sc.cur;
  }

  // ---------- The serialiser ----------

  /** The writing context: the text goes to str, or to a buffer of the given size as far as it fits. */
  class Writer {
    var str: string
    const toString: bool
    const buf: array?<char>
    const size: nat
    var used: nat
    var indent: nat
    const pretty: bool
    /** All that was appended. */
    ghost var text: string

    ghost predicate Valid()
      reads this, buf
    {
      && used == |text| && (toString ==> str == text)
      && (buf != null ==> size <= buf.Length && (!toString && used < size ==> buf[..used] == text))
    }

    constructor (toString: bool, buf: array?<char>, size: nat, pretty: bool)
      requires buf != null ==> size <= buf.Length
      ensures Valid() && text == "" && indent == 0
      ensures this.toString == toString && this.buf == buf && this.size == size && this.pretty == pretty
    {
      this.toString, this.buf, this.size, this.pretty := toString, buf, size, pretty;
      str, used, indent, text := "", 0, 0, "";
    }

    method Append(s: string)
      requires Valid()
      modifies this, buf
      ensures Valid() && text == old(text) + s && indent == old(indent)
    {
      if toString {
        str := str + s;
      } else if buf != null && used + |s| < size {
        for i := 0 to |s|
          invariant used == |text| && used + |s| < size <= buf.Length
          invariant buf[..used] == text
          invariant buf[used..used + i] == s[..i]
          invariant str == old(str) && text == old(text) && indent == old(indent)
        {
          buf[used + i] := s[i];
        }
        assert buf[..used + |s|] == buf[..used] + buf[used..used + |s|];
      }
      used := used + |s|;
      text := text + s;
    }

    method AppendIndent()
      requires Valid()
      modifies this, buf
      ensures Valid() && text == old(text) + NewLine(pretty, indent) && indent == old(indent)
    {
      if !pretty {
        return;
      }
      Append("\n");
      for i := 0 to indent
        invariant Valid() && text == old(text) + "\n" + Spaces(i) && indent == old(indent)
      {
        Append("  ");
        SpacesEnd(i);
      }
      assert text == old(text) + ("\n" + Spaces(indent));
    }

    /** serialize_string_escaped */
    method AppendQuoted(s: string)
      requires Valid()
      modifies this, buf
      ensures Valid() && text == old(text) + Quoted(s) && indent == old(indent)
    {
      hide Valid, Escape, EscapeChar;
      Append("\"");
      EscapeNone();
      assert text == text + Escape(s[..0]) by { assert s[..0] == ""; }
      for i := 0 to |s|
        invariant Valid() && text == old(text) + "\"" + Escape(s[..i]) && indent == old(indent)
      {
        Append(EscapeChar(s[i]));
        EscapeEndChar(s[..i], s[i]);
        assert s[..i] + [s[i]] == s[..i + 1];
        Regroup3(old(text) + "\"", Escape(s[..i]), EscapeChar(s[i]));
      }
      Append("\"");
      assert s[..|s|] == s;
      assert text == old(text) + ("\"" + Escape(s) + "\"") by { Regroup4(old(text), "\"", Escape(s), "\""); }
    }

    /** serialize_value */
    method AppendValue(libc: Libc, e: Json)
      requires Valid()
      modifies this, buf
      ensures Valid() && text == old(text) + Text(libc, e, pretty, indent) && indent == old(indent)
      decreases e, 2, 0
    {
      match e
      case Null => Append("null");
      case Bool(b) => Append(if b then "true" else "false");
      case Number(num) => Append(NumText(libc, num));
      case String(s) => AppendQuoted(s);
      case Array(items) => AppendArray(libc, e);
      case Object(members) => AppendObject(libc, e);
    }

    method AppendItem(libc: Libc, e: Json, i: nat)
      requires Valid() && e.Array? && i < |e.items|
      modifies this, buf
      ensures Valid() && indent == old(indent) && text == old(text) + ItemText(libc, e, i, pretty, indent)
      decreases e, 0, 0
    {
      hide Valid, Text, NewLine;
      if i > 0 {
        Append(",");
      } else {
        assert text == text + "";
      }
      AppendIndent();
      AppendValue(libc, e.items[i]);
      Regroup4(old(text), if i > 0 then "," else "", NewLine(pretty, indent), Text(libc, e.items[i], pretty, indent));
    }

    method AppendArray(libc: Libc, e: Json)
      requires Valid() && e.Array?
      modifies this, buf
      ensures Valid() && text == old(text) + Text(libc, e, pretty, indent) && indent == old(indent)
      decreases e, 1, 0
    {
      hide ItemText, ItemsText;
      Append("[");
      indent := indent + if pretty then 1 else 0;
      ghost var inner := indent;
      assert text == text + ItemsUpto(libc, e, 0, pretty, inner);
      for i := 0 to |e.items|
        invariant Valid() && indent == inner && text == old(text) + "[" + ItemsUpto(libc, e, i, pretty, inner)
      {
        AppendItem(libc, e, i);
        Regroup3(old(text) + "[", ItemsUpto(libc, e, i, pretty, inner), ItemText(libc, e, i, pretty, inner));
      }
      UptoAll(libc, e, |e.items|, pretty, inner);
      indent := indent - if pretty then 1 else 0;
      if pretty && e.items != [] {
        AppendIndent();
      } else {
        assert text == text + "";
      }
      Append("]");
      ghost var close := if e.items != [] then NewLine(pretty, indent) else "";
      Regroup5(old(text), "[", ItemsText(libc, e, 0, pretty, inner), close, "]");
    }

    method AppendMember(libc: Libc, e: Json, i: nat)
      requires Valid() && e.Object? && i < |e.members|
      modifies this, buf
      ensures Valid() && indent == old(indent) && text == old(text) + NamedText(libc, e, i, pretty, indent)
      decreases e, 0, 0
    {
      hide Valid, Text, NewLine, Quoted;
      if i > 0 {
        Append(",");
      } else {
        assert text == text + "";
      }
      AppendIndent();
      AppendQuoted(e.members[i].name);
      Append(if pretty then ": " else ":");
      AppendValue(libc, e.members[i].value);
      ghost var colon := if pretty then ": " else ":";
      Regroup6(old(text), if i > 0 then "," else "", NewLine(pretty, indent), Quoted(e.members[i].name), colon,
               Text(libc, e.members[i].value, pretty, indent));
    }

    method AppendObject(libc: Libc, e: Json)
      requires Valid() && e.Object?
      modifies this, buf
      ensures Valid() && text == old(text) + Text(libc, e, pretty, indent) && indent == old(indent)
      decreases e, 1, 0
    {
      hide NamedText, MembersText;
      Append("{");
      indent := indent + if pretty then 1 else 0;
      ghost var inner := indent;
      assert text == text + MembersUpto(libc, e, 0, pretty, inner);
      for i := 0 to |e.members|
        invariant Valid() && indent == inner && text == old(text) + "{" + MembersUpto(libc, e, i, pretty, inner)
      {
        AppendMember(libc, e, i);
        Regroup3(old(text) + "{", MembersUpto(libc, e, i, pretty, inner), NamedText(libc, e, i, pretty, inner));
      }
      MembersUptoAll(libc, e, |e.members|, pretty, inner);
      indent := indent - if pretty then 1 else 0;
      if pretty && e.members != [] {
        AppendIndent();
      } else {
        assert text == text + "";
      }
      Append("}");
      ghost var close := if e.members != [] then NewLine(pretty, indent) else "";
      Regroup5(old(text), "{", MembersText(libc, e, 0, pretty, inner), close, "}");
    }
  }

  // The separators and text of one item or member, and of all before the k-th.

  function ItemText(libc: Libc, e: Json, k: nat, pretty: bool, indent: nat): string
    requires e.Array? && k < |e.items|
  {
    (if k > 0 then "," else "") + NewLine(pretty, indent) + Text(libc, e.items[k], pretty, indent)
  }

  function ItemsUpto(libc: Libc, e: Json, k: nat, pretty: bool, indent: nat): string
    requires e.Array? && k <= |e.items|
  {
    if k == 0 then "" else ItemsUpto(libc, e, k - 1, pretty, indent) + ItemText(libc, e, k - 1, pretty, indent)
  }

  function NamedText(libc: Libc, e: Json, k: nat, pretty: bool, indent: nat): string
    requires e.Object? && k < |e.members|
  {
    (if k > 0 then "," else "") + NewLine(pretty, indent) + Quoted(e.members[k].name) + (if pretty then ": " else ":")
    + Text(libc, e.members[k].value, pretty, indent)
  }

  function MembersUpto(libc: Libc, e: Json, k: nat, pretty: bool, indent: nat): string
    requires e.Object? && k <= |e.members|
  {
    if k == 0 then "" else MembersUpto(libc, e, k - 1, pretty, indent) + NamedText(libc, e, k - 1, pretty, indent)
  }

  lemma {:induction false} UptoAll(libc: Libc, e: Json, k: nat, pretty: bool, indent: nat)
    requires e.Array? && k <= |e.items|
    ensures ItemsUpto(libc, e, k, pretty, indent) + ItemsText(libc, e, k, pretty, indent) == ItemsText(libc, e, 0, pretty, indent)
    ensures k == |e.items| ==> ItemsUpto(libc, e, k, pretty, indent) == ItemsText(libc, e, 0, pretty, indent)
  {
    hide Text, NewLine;
    if k == 0 {
      assert "" + ItemsText(libc, e, 0, pretty, indent) == ItemsText(libc, e, 0, pretty, indent);
    } else {
      UptoAll(libc, e, k - 1, pretty, indent);
      Regroup3(ItemsUpto(libc, e, k - 1, pretty, indent), ItemText(libc, e, k - 1, pretty, indent), ItemsText(libc, e, k, pretty, indent));
      assert ItemText(libc, e, k - 1, pretty, indent) + ItemsText(libc, e, k, pretty, indent) == ItemsText(libc, e, k - 1, pretty, indent);
    }
    if k == |e.items| {
      assert ItemsUpto(libc, e, k, pretty, indent) + "" == ItemsUpto(libc, e, k, pretty, indent);
    }
  }

  lemma {:induction false} MembersUptoAll(libc: Libc, e: Json, k: nat, pretty: bool, indent: nat)
    requires e.Object? && k <= |e.members|
    ensures MembersUpto(libc, e, k, pretty, indent) + MembersText(libc, e, k, pretty, indent) == MembersText(libc, e, 0, pretty, indent)
    ensures k == |e.members| ==> MembersUpto(libc, e, k, pretty, indent) == MembersText(libc, e, 0, pretty, indent)
  {
    hide Text, NewLine, Quoted;
    if k == 0 {
      assert "" + MembersText(libc, e, 0, pretty, indent) == MembersText(libc, e, 0, pretty, indent);
    } else {
      MembersUptoAll(libc, e, k - 1, pretty, indent);
      Regroup3(MembersUpto(libc, e, k - 1, pretty, indent), NamedText(libc, e, k - 1, pretty, indent), MembersText(libc, e, k, pretty, indent));
      assert NamedText(libc, e, k - 1, pretty, indent) + MembersText(libc, e, k, pretty, indent) == MembersText(libc, e, k - 1, pretty, indent);
    }
    if k == |e.members| {
      assert MembersUpto(libc, e, k, pretty, indent) + "" == MembersUpto(libc, e, k, pretty, indent);
    }
  }

  lemma EscapeNone()
    ensures Escape("") == ""
  {
  }

  lemma {:induction false} SpacesEnd(n: nat)
    ensures Spaces(n) + "  " == Spaces(n + 1)
  {
    if n > 0 {
      SpacesEnd(n - 1);
    }
  }

  lemma {:induction false} EscapeEndChar(s: string, c: char)
    ensures Escape(s + [c]) == Escape(s) + EscapeChar(c)
  {
    hide EscapeChar;
    if s == "" {
      assert s + [c] == [c];
      assert Escape([c]) == EscapeChar(c) + Escape([c][1..]);
    } else {
      var t := s + [c];
      EscapeEndChar(s[1..], c);
      assert t[0] == s[0] && t[1..] == s[1..] + [c];
      assert Escape(t) == EscapeChar(s[0]) + Escape(t[1..]);
      Regroup3(EscapeChar(s[0]), Escape(s[1..]), EscapeChar(c));
    }
  }

  /** vox_json_to_string */
  method ToString(libc: Libc, e: Json, pretty: bool) returns (s: string)
    ensures s == Text(libc, e, pretty, 0)
  {
    var w := new Writer(true, null, 0, pretty);
    w.AppendValue(libc, e);
    s := w.str;
  }

  /** vox_json_serialize: written is the full length even when the text and its NUL do not fit. */
  method Serialize(libc: Libc, e: Json, buffer: array?<char>, size: nat, pretty: bool) returns (ret: int, written: nat)
    requires buffer != null ==> size <= buffer.Length
    modifies buffer
    ensures written == |Text(libc, e, pretty, 0)|
    ensures ret == if buffer != null && 0 < size <= written then -1 else 0
    ensures buffer != null && written < size ==> buffer[..written] == Text(libc, e, pretty, 0) && buffer[written] == '\0'
    ensures buffer != null && 0 < size <= written ==> buffer[0] == '\0'
  {
    var w := new Writer(false, buffer, size, pretty);
    w.AppendValue(libc, e);
    written := w.used;
    if buffer != null && size > w.used {
      buffer[w.used] := '\0';
      return 0, written;
    }
    if buffer != null && size > 0 {
      buffer[0] := '\0';
      return -1, written;
    }
    ret := 0;
  }
}
