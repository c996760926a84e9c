/** The JSON trees and texts of vox_json.c. */
module Json {
  import opened Prelude

  /*
   The text that the serialiser writes for a tree, and what the parser makes of a text. The parser reads through a
   scanner that skips white space after every step, so it is described by what it leaves unread.
   */

  /** A double: the integers that it can hold exactly, or any other one, by an arbitrary name. */
  datatype Num = Int(n: int) | Other(id: nat)

  datatype Json =
    | Null
    | Bool(b: bool)
    | Number(num: Num)
    | String(s: string)
    | Array(items: seq<Json>)
    | Object(members: seq<Member>)

  datatype Member = Member(name: string, value: Json)

  /** 2^53 - 1 */
  const MAX_EXACT := 9007199254740991

  /** What the C library contributes: strtod, None on a range error, and the %.15g format. */
  datatype Libc = Libc(strtod: string -> Option<Num>, general: Num -> string)

  // ---------- The serialiser's text ----------

  function Digit(d: nat): char
    requires d < 10
  {
    "0123456789"[d]
  }

  function NatText(n: nat): string {
    if n < 10 then [Digit(n)] else NatText(n / 10) + [Digit(n % 10)]
  }

  function IntText(n: int): string {
    if n < 0 then "-" + NatText(-n) else NatText(n)
  }

  function NumText(libc: Libc, num: Num): string {
    if num.Int? && -MAX_EXACT <= num.n <= MAX_EXACT then IntText(num.n) else libc.general(num)
  }

  function HexDigit(d: nat): char
    requires d < 16
  {
    "0123456789abcdef"[d]
  }

  function EscapeChar(c: char): string {
    if c == '\"' then "\\\""
    else if c == '\\' then "\\\\"
    else if c == '\U{0008}' then "\\b"
    else if c == '\U{000C}' then "\\f"
    else if c == '\n' then "\\n"
    else if c == '\r' then "\\r"
    else if c == '\t' then "\\t"
    else if c < ' ' then "\\u00" + [HexDigit(c as int / 16), HexDigit(c as int % 16)]
    else [c]
  }

  function Escape(s: string): string {
    if s == "" then "" else EscapeChar(s[0]) + Escape(s[1..])
  }

  function Quoted(s: string): string { "\"" + Escape(s) + "\"" }

  function Spaces(indent: nat): string {
    if indent == 0 then "" else "  " + Spaces(indent - 1)
  }

  function NewLine(pretty: bool, indent: nat): string {
    if pretty then "\n" + Spaces(indent) else ""
  }

  function Deeper(pretty: bool, indent: nat): nat { if pretty then indent + 1 else indent }

  function Text(libc: Libc, e: Json, pretty: bool, indent: nat): string
    decreases e, 1, 0
  {
    match e
    case Null => "null"
    case Bool(b) => if b then "true" else "false"
    case Number(num) => NumText(libc, num)
    case String(s) => Quoted(s)
    case Array(items) =>
      "[" + ItemsText(libc, e, 0, pretty, Deeper(pretty, indent))
      + (if items != [] then NewLine(pretty, indent) else "") + "]"
    case Object(members) =>
      "{" + MembersText(libc, e, 0, pretty, Deeper(pretty, indent))
      + (if members != [] then NewLine(pretty, indent) else "") + "}"
  }

  /** The items of e from the k-th on, with their separators. */
  function ItemsText(libc: Libc, e: Json, k: nat, pretty: bool, indent: nat): string
    requires e.Array? && k <= |e.items|
    decreases e, 0, |e.items| - k
  {
    if k == |e.items| then ""
    else (if k > 0 then "," else "") + NewLine(pretty, indent) + Text(libc, e.items[k], pretty, indent)
         + ItemsText(libc, e, k + 1, pretty, indent)
  }

  function MembersText(libc: Libc, e: Json, k: nat, pretty: bool, indent: nat): string
    requires e.Object? && k <= |e.members|
    decreases e, 0, |e.members| - k
  {
    if k == |e.members| then ""
    else (if k > 0 then "," else "") + NewLine(pretty, indent) + Quoted(e.members[k].name) + (if pretty then ": " else ":")
         + Text(libc, e.members[k].value, pretty, indent) + MembersText(libc, e, k + 1, pretty, indent)
  }

  // ---------- The scanner ----------

  predicate IsSpace(c: char) {
    c == ' ' || c == '\t' || c == '\n' || c == '\r' || c == '\U{000B}' || c == '\U{000C}'
  }

  function Skip(s: string): (r: string)
    ensures |r| <= |s| && (r != "" ==> !IsSpace(r[0]))
  {
    if s != "" && IsSpace(s[0]) then Skip(s[1..]) else s
  }

  /** What is skipped is exactly the white space at the front. */
  lemma {:induction false} SkipIsSuffix(s: string)
    ensures Skip(s) == s[|s| - |Skip(s)|..] && forall i | 0 <= i < |s| - |Skip(s)| :: IsSpace(s[i])
  {
    if s != "" && IsSpace(s[0]) {
      SkipIsSuffix(s[1..]);
    }
  }

  // ---------- The parser ----------

  predicate IsDigit(c: char) { '0' <= c <= '9' }

  predicate IsHex(c: char) { '0' <= c <= '9' || 'a' <= c <= 'f' || 'A' <= c <= 'F' }

  /** The byte at i; the buffer ends with a NUL. */
  function Peek(s: string, i: nat): char { if i < |s| then s[i] else '\0' }

  /** The end of the run of digits that starts at i. */
  function DigitsEnd(s: string, i: nat): (j: nat)
    requires i <= |s|
    ensures i <= j <= |s|
    decreases |s| - i
  {
    if i < |s| && IsDigit(s[i]) then DigitsEnd(s, i + 1) else i
  }

  function IntegerEnd(s: string): (j: Option<nat>)
    requires s != ""
    ensures j.Some? ==> 0 < j.value <= |s|
  {
    var i := if s[0] == '-' then 1 else 0;
    if Peek(s, i) == '0' then
      if IsDigit(Peek(s, i + 1)) then None else Some(i + 1)
    else if IsDigit(Peek(s, i)) then Some(DigitsEnd(s, i + 1))
    else None
  }

  function FractionEnd(s: string, i: nat): (j: Option<nat>)
    requires i <= |s|
    ensures j.Some? ==> i <= j.value <= |s|
  {
    if Peek(s, i) != '.' then Some(i)
    else if !IsDigit(Peek(s, i + 1)) then None
    else Some(DigitsEnd(s, i + 1))
  }

  function ExponentEnd(s: string, i: nat): (j: Option<nat>)
    requires i <= |s|
    ensures j.Some? ==> i <= j.value <= |s|
  {
    if Peek(s, i) != 'e' && Peek(s, i) != 'E' then Some(i)
    else
      var k := if Peek(s, i + 1) == '+' || Peek(s, i + 1) == '-' then i + 2 else i + 1;
      if !IsDigit(Peek(s, k)) then None else Some(DigitsEnd(s, k))
  }

  /** The length of the number at the start of s. */
  function NumberEnd(s: string): (j: Option<nat>)
    requires s != ""
    ensures j.Some? ==> 0 < j.value <= |s|
  {
    var i := IntegerEnd(s);
    if i.None? then None
    else
      var f := FractionEnd(s, i.value);
      if f.None? then None else ExponentEnd(s, f.value)
  }

  /** How far the quote that ends the string is from i on; a backslash takes the next byte, and \u four hex digits, with it. */
  function StringEnd(s: string, i: nat): (j: Option<nat>)
    requires i <= |s|
    ensures j.Some? ==> i <= j.value < |s| && s[j.value] == '\"'
    decreases |s| - i
  {
    if i == |s| then None
    else if s[i] == '\"' then Some(i)
    else if s[i] != '\\' then StringEnd(s, i + 1)
    else if i + 1 == |s| then None
    else if s[i + 1] != 'u' then StringEnd(s, i + 2)
    else if i + 6 <= |s| && IsHex(s[i + 2]) && IsHex(s[i + 3]) && IsHex(s[i + 4]) && IsHex(s[i + 5]) then StringEnd(s, i + 6)
    else None
  }

  /** A value, or a string, or a list, and what is left unread. */
  type Parsed<T> = Option<(T, string)>

  ghost predicate Shorter<T>(r: Parsed<T>, s: string) { r.Some? ==> |r.value.1| < |s| }

  function ParseWord(s: string, word: string, e: Json): (r: Parsed<Json>)
    requires word != ""
    ensures Shorter(r, s)
  {
    if word <= s then Some((e, Skip(s[|word|..]))) else None
  }

  function ParseNumber(libc: Libc, s: string): (r: Parsed<Json>)
    requires s != ""
    ensures Shorter(r, s)
  {
    var j := NumberEnd(s);
    if j.None? then None
    else
      var num := libc.strtod(s[..j.value]);
      if num.None? then None else Some((Number(num.value), Skip(s[j.value..])))
  }

  /** The scanner skips white space after the opening quote as well. */
  function ParseString(s: string): (r: Parsed<string>)
    ensures Shorter(r, s)
  {
    if Peek(s, 0) != '\"' || s == "" then None
    else
      var t := Skip(s[1..]);
      var j := StringEnd(t, 0);
      if j.None? then None else Some((t[..j.value], Skip(t[j.value + 1..])))
  }

  function ParseValue(libc: Libc, s: string): (r: Parsed<Json>)
    ensures Shorter(r, s)
    decreases |s|, 1
  {
    if s == "" then None
    else match s[0]
      case 'n' => ParseWord(s, "null", Null)
      case 't' => ParseWord(s, "true", Bool(true))
      case 'f' => ParseWord(s, "false", Bool(false))
      case '\"' =>
        var r := ParseString(s);
        if r.None? then None else Some((String(r.value.0), r.value.1))
      case '[' =>
        var t := Skip(s[1..]);
        if Peek(t, 0) == ']' && t != "" then Some((Array([]), Skip(t[1..])))
        else
          var r := ParseItems(libc, t);
          if r.None? then None else Some((Array(r.value.0), r.value.1))
      case '{' =>
        var t := Skip(s[1..]);
        if Peek(t, 0) == '}' && t != "" then Some((Object([]), Skip(t[1..])))
        else
          var r := ParseMembers(libc, t);
          if r.None? then None else Some((Object(r.value.0), r.value.1))
      case _ =>
        if s[0] == '-' || IsDigit(s[0]) then ParseNumber(libc, s) else None
  }

  /** Items up to and including the closing bracket. */
  function ParseItems(libc: Libc, s: string): (r: Parsed<seq<Json>>)
    ensures Shorter(r, s)
    decreases |s|, 2
  {
    var v := ParseValue(libc, s);
    if v.None? || v.value.1 == "" then None
    else
      var t := v.value.1;
      if t[0] == ']' then Some(([v.value.0], Skip(t[1..])))
      else if t[0] == ',' then
        var r := ParseItems(libc, Skip(t[1..]));
        if r.None? then None else Some(([v.value.0] + r.value.0, r.value.1))
      else None
  }

  /** A name, the colon and the value. */
  function ParseMember(libc: Libc, s: string): (r: Parsed<Member>)
    ensures Shorter(r, s)
    decreases |s|, 2
  {
    var k := ParseString(s);
    if k.None? || k.value.1 == "" || k.value.1[0] != ':' then None
    else
      var v := ParseValue(libc, Skip(k.value.1[1..]));
      if v.None? then None else Some((Member(k.value.0, v.value.0), v.value.1))
  }

  function ParseMembers(libc: Libc, s: string): (r: Parsed<seq<Member>>)
    ensures Shorter(r, s)
    decreases |s|, 3
  {
    var m := ParseMember(libc, s);
    if m.None? || m.value.1 == "" then None
    else
      var t := m.value.1;
      if t[0] == '}' then Some(([m.value.0], Skip(t[1..])))
      else if t[0] == ',' then
        var r := ParseMembers(libc, Skip(t[1..]));
        if r.None? then None else Some(([m.value.0] + r.value.0, r.value.1))
      else None
  }

  /** vox_json_parse: the tree, if any, and how much of the text is left. */
  function Parse(libc: Libc, text: string): Parsed<Json> {
    ParseValue(libc, Skip(text))
  }
}
