/**
 The Base64 codecs of vox_crypto.c, in the standard and the URL-safe alphabet.

 Encoding and decoding are described by functions on texts, group by group, with the padding rules and the room that each
 decoder demands of its output. The loops of the source are proved to compute these functions, and decoding is proved to
 invert encoding. The URL decoder accepts padded text as well, and it knows the characters of both alphabets.
 */
module Base64 {
  import opened Prelude

  type Six = x: int | 0 <= x < 64

  // ---------- Alphabets ----------

  /** base64_chars, base64url_chars */
  function Char(url: bool, v: Six): char {
    if v < 26 then (v + 65) as char
    else if v < 52 then (v + 71) as char
    else if v < 62 then (v - 4) as char
    else if v == 62 then if url then '-' else '+'
    else if url then '_' else '/'
  }

  /** base64_char_value, base64url_char_value; -1 for padding, -2 for any other character. The URL decoder takes both alphabets. */
  function Value(url: bool, c: char): (v: int)
    ensures -2 <= v < 64
  {
    if 'A' <= c <= 'Z' then c as int - 65
    else if 'a' <= c <= 'z' then c as int - 71
    else if '0' <= c <= '9' then c as int + 4
    else if c == '=' then -1
    else if url && c == '-' then 62
    else if url && c == '_' then 63
    else if c == '+' then 62
    else if c == '/' then 63
    else -2
  }

  lemma ValueOfChar(v: Six)
    ensures Value(false, Char(false, v)) == v && Value(true, Char(true, v)) == v && Value(true, Char(false, v)) == v
    ensures Char(false, v) != '=' && Char(true, v) != '='
  {
  }

  /** The alphabets of sections 4 and 5 of RFC 4648. */
  const STANDARD := "ABCDEFGHIJKLMNOPQRSTUVWXYZ" + "abcdefghijklmnopqrstuvwxyz" + "0123456789" + "+/"
  const URL_SAFE := "ABCDEFGHIJKLMNOPQRSTUVWXYZ" + "abcdefghijklmnopqrstuvwxyz" + "0123456789" + "-_"

  lemma AlphabetIs(v: Six)
    ensures |STANDARD| == |URL_SAFE| == 64 && Char(false, v) == STANDARD[v] && Char(true, v) == URL_SAFE[v]
  {
  }

  /** The standard decoder knows the standard alphabet, the URL decoder both, and each character by its place in them. */
  lemma ValueIs(url: bool, c: char, v: Six)
    ensures |STANDARD| == |URL_SAFE| == 64
    ensures Value(url, c) == v <==> c == STANDARD[v] || (url && c == URL_SAFE[v])
    ensures Value(url, '=') == -1
  {
    AlphabetIs(v);
    ValueOfChar(v);
    if Value(url, c) >= 0 { ValueBack(url, c); }
  }

  lemma ValueBack(url: bool, c: char)
    requires Value(url, c) >= 0
    ensures c == Char(false, Value(url, c)) || (url && c == Char(true, Value(url, c)))
  {
  }

  // ---------- Groups ----------

  /** The four digits of three bytes; shifts and masks of disjoint bits are sums here. */
  function Digits(a: Byte, b: Byte, c: Byte): (Six, Six, Six, Six) {
    (a / 4, a % 4 * 16 + b / 16, b % 16 * 4 + c / 64, c % 64)
  }

  function First(v1: Six, v2: Six): Byte { v1 * 4 + v2 / 16 }

  function Second(v2: Six, v3: Six): Byte { v2 % 16 * 16 + v3 / 4 }

  function Third(v3: Six, v4: Six): Byte { v3 % 4 * 64 + v4 }

  /** The digits are the 24 bits of the bytes in order, six at a time. */
  lemma DigitsAre(a: Byte, b: Byte, c: Byte)
    ensures var d := Digits(a, b, c); d.0 * 0x40000 + d.1 * 0x1000 + d.2 * 0x40 + d.3 == a * 0x10000 + b * 0x100 + c
  {
  }

  lemma DigitsBack(a: Byte, b: Byte, c: Byte)
    ensures var d := Digits(a, b, c); First(d.0, d.1) == a && Second(d.1, d.2) == b && Third(d.2, d.3) == c
  {
  }

  // ---------- Encoding ----------

  /** The text of some bytes; only the standard codec pads. */
  function Encode(url: bool, s: seq<Byte>): string {
    if s == [] then ""
    else if |s| == 1 then
      var d := Digits(s[0], 0, 0);
      [Char(url, d.0), Char(url, d.1)] + if url then "" else "=="
    else if |s| == 2 then
      var d := Digits(s[0], s[1], 0);
      [Char(url, d.0), Char(url, d.1), Char(url, d.2)] + if url then "" else "="
    else
      var d := Digits(s[0], s[1], s[2]);
      [Char(url, d.0), Char(url, d.1), Char(url, d.2), Char(url, d.3)] + Encode(url, s[3..])
  }

  /** The room that the encoders ask for, without the final NUL. */
  function EncodedRoom(n: nat): nat { (n + 2) / 3 * 4 }

  // ---------- Decoding ----------

  /** What a decoder has written when it returns, and whether it returns a length or -1. */
  datatype Decoding = Decoding(written: seq<Byte>, ok: bool)

  const Nothing := Decoding([], false)

  function DecodeGroup(url: bool, t: string): Decoding
    requires |t| == 4
  {
    if Value(url, t[0]) < 0 || Value(url, t[1]) < 0 || Value(url, t[2]) < 0 || Value(url, t[3]) < 0 then Nothing
    else
      Decoding([First(Value(url, t[0]), Value(url, t[1])), Second(Value(url, t[1]), Value(url, t[2])),
                Third(Value(url, t[2]), Value(url, t[3]))], true)
  }

  /** The digits after the last whole group, with p padding characters behind them. */
  function DecodeTail(url: bool, t: string, p: nat): Decoding
    requires |t| < 4
  {
    if |t| == 0 then Decoding([], url || p == 0)
    else if |t| == 1 || (!url && p == 0) || Value(url, t[0]) < 0 || Value(url, t[1]) < 0 then Nothing
    else
      var first := First(Value(url, t[0]), Value(url, t[1]));
      if |t| == 2 then Decoding([first], url || p != 1)
      else if !url && p == 2 then Decoding([first], true)
      else if Value(url, t[2]) < 0 then Decoding([first], false)
      else Decoding([first, Second(Value(url, t[1]), Value(url, t[2]))], true)
  }

  /** Whole groups of four digits up to one that is not, then the tail. */
  function DecodeDigits(url: bool, t: string, p: nat): Decoding {
    if |t| < 4 then DecodeTail(url, t, p)
    else
      var g := DecodeGroup(url, t[..4]);
      if !g.ok then g else After(g.written, DecodeDigits(url, t[4..], p))
  }

  function After(done: seq<Byte>, d: Decoding): Decoding { d.(written := done + d.written) }

  lemma GroupIs(url: bool, t: string)
    requires |t| == 4
    ensures DecodeGroup(url, t).ok <==> forall i | 0 <= i < 4 :: Value(url, t[i]) >= 0
  {
    hide Value;
  }

  /** Three bytes in order as one number. */
  function Bits24(s: seq<Byte>): int {
    if |s| == 3 then s[0] as int * 0x10000 + s[1] as int * 0x100 + s[2] as int else -1
  }

  /** Four digits in order as one number. */
  function DigitSum(v1: int, v2: int, v3: int, v4: int): int { v1 * 0x40000 + v2 * 0x1000 + v3 * 0x40 + v4 }

  /** The bytes of a group hold the 24 bits of its digits. */
  lemma BitsBack(v1: Six, v2: Six, v3: Six, v4: Six)
    ensures Bits24([First(v1, v2), Second(v2, v3), Third(v3, v4)]) == DigitSum(v1, v2, v3, v4)
  {
  }

  /** Which numbers of digits after the last whole group, with p padding characters, a decoder takes. */
  predicate TailFits(url: bool, n: nat, p: nat) {
    if n == 0 then url || p == 0
    else if n == 2 then url || p == 2
    else n == 3 && (url || p > 0)
  }

  /** How many of n digits are read: a third one before two padding characters is not. */
  function DigitsRead(url: bool, n: nat, p: nat): nat {
    if !url && p == 2 && n % 4 == 3 then n - 1 else n
  }

  /** Digits decode exactly when the tail fits and all that are read are in the alphabet. */
  lemma {:induction false} AcceptedExactly(url: bool, t: string, p: nat)
    requires p <= 2
    ensures DecodeDigits(url, t, p).ok <==>
            TailFits(url, |t| % 4, p) && forall i | 0 <= i < DigitsRead(url, |t|, p) :: Value(url, t[i]) >= 0
    decreases |t|
  {
    hide Value, First, Second, Third;
    if |t| >= 4 {
      hide DecodeGroup, DecodeTail, TailFits;
      var g, n := DecodeGroup(url, t[..4]), DigitsRead(url, |t|, p);
      GroupIs(url, t[..4]);
      AcceptedExactly(url, t[4..], p);
      assert DecodeDigits(url, t, p).ok <==> g.ok && DecodeDigits(url, t[4..], p).ok;
      assert n == DigitsRead(url, |t[4..]|, p) + 4;
      assert forall i | 0 <= i < 4 :: t[..4][i] == t[i];
      assert forall i | 0 <= i < |t| - 4 :: t[4..][i] == t[i + 4];
      assert TailFits(url, |t| % 4, p) == TailFits(url, |t[4..]| % 4, p);
      if forall i | 0 <= i < n :: Value(url, t[i]) >= 0 {
        assert forall i | 0 <= i < n - 4 :: Value(url, t[4..][i]) >= 0;
      } else {
        var i :| 0 <= i < n && Value(url, t[i]) < 0;
        if i < 4 {
          assert !g.ok by { assert Value(url, t[..4][i]) < 0; }
        } else {
          assert !DecodeDigits(url, t[4..], p).ok by { assert Value(url, t[4..][i - 4]) < 0; }
        }
      }
    }
  }

  function Padding(t: string): (p: nat)
    ensures p <= 2 && p <= |t|
  {
    (if |t| > 0 && t[|t| - 1] == '=' then 1 else 0) + if |t| > 1 && t[|t| - 2] == '=' then 1 else 0
  }

  predicate IsBlank(c: char) { c == ' ' || c == '\n' || c == '\r' || c == '\t' }

  function TrimEnd(t: string): (r: string)
    ensures |r| <= |t| && r == t[..|r|] && (r != "" ==> !IsBlank(r[|r| - 1]))
  {
    if t != "" && IsBlank(t[|t| - 1]) then TrimEnd(t[..|t| - 1]) else t
  }

  /** The output room that the decoders demand; the difference wraps like any size_t. */
  function DecodedRoom(url: bool, len: nat, p: nat): nat {
    if url && p == 0 then
      len * 3 / 4 + if len % 4 == 2 then 1 else if len % 4 == 3 then 2 else 0
    else (len * 3 / 4 - p) % TWO_64
  }

  /** The decoders: only the standard one drops blanks at the end. */
  function Decode(url: bool, encoded: string, outputSize: nat): Decoding {
    var t := if url then encoded else TrimEnd(encoded);
    var p := Padding(t);
    if t == "" then Decoding([], true)
    else if url && p == 0 && |t| % 4 == 1 then Nothing
    else if outputSize < DecodedRoom(url, |t|, p) then Nothing
    else DecodeDigits(url, t[..|t| - p], p)
  }

  // ---------- Round trip ----------

  /** A decoder that knows the characters of an encoder: its own alphabet, or the URL one for the standard text. */
  predicate Reads(decoder: bool, encoder: bool) { decoder || !encoder }

  /** The padding that the standard encoder appends. */
  function PadCount(url: bool, n: nat): nat {
    if url || n % 3 == 0 then 0 else 3 - n % 3
  }

  function Pads(n: nat): string { if n == 0 then "" else "=" + Pads(n - 1) }

  /** The digits of an encoding, without padding. */
  function DigitText(url: bool, s: seq<Byte>): string {
    if s == [] then ""
    else if |s| == 1 then
      var d := Digits(s[0], 0, 0);
      [Char(url, d.0), Char(url, d.1)]
    else if |s| == 2 then
      var d := Digits(s[0], s[1], 0);
      [Char(url, d.0), Char(url, d.1), Char(url, d.2)]
    else
      var d := Digits(s[0], s[1], s[2]);
      [Char(url, d.0), Char(url, d.1), Char(url, d.2), Char(url, d.3)] + DigitText(url, s[3..])
  }

  lemma {:induction false} EncodeIsPadded(url: bool, s: seq<Byte>)
    ensures Encode(url, s) == DigitText(url, s) + Pads(PadCount(url, |s|))
  {
    hide Digits, Char;
    if |s| < 3 {
      assert Pads(1) == "=" && Pads(2) == "==" by { assert Pads(0) == ""; }
    } else {
      hide Pads;
      var d := Digits(s[0], s[1], s[2]);
      var group := [Char(url, d.0), Char(url, d.1), Char(url, d.2), Char(url, d.3)];
      EncodeIsPadded(url, s[3..]);
      var t, p := DigitText(url, s[3..]), Pads(PadCount(url, |s|));
      assert group + (t + p) == (group + t) + p;
    }
  }

  lemma {:induction false} DigitTextPlain(url: bool, s: seq<Byte>)
    ensures |DigitText(url, s)| == |s| / 3 * 4 + (if |s| % 3 == 0 then 0 else |s| % 3 + 1)
    ensures forall i | 0 <= i < |DigitText(url, s)| :: DigitText(url, s)[i] != '=' && !IsBlank(DigitText(url, s)[i])
  {
    PlainChars(url);
    hide Digits, Char, IsBlank;
    if |s| >= 3 {
      DigitTextPlain(url, s[3..]);
    }
  }

  lemma EncodeParts(url: bool, s: seq<Byte>)
    ensures Encode(url, s) == DigitText(url, s) + Pads(PadCount(url, |s|))
    ensures |DigitText(url, s)| == |s| / 3 * 4 + (if |s| % 3 == 0 then 0 else |s| % 3 + 1)
    ensures forall i | 0 <= i < |DigitText(url, s)| :: DigitText(url, s)[i] != '=' && !IsBlank(DigitText(url, s)[i])
  {
    EncodeIsPadded(url, s);
    DigitTextPlain(url, s);
  }

  lemma PlainChars(url: bool)
    ensures forall v: Six {:trigger Char(url, v)} :: Char(url, v) != '=' && !IsBlank(Char(url, v))
  {
  }

  lemma ReadsChar(decoder: bool, encoder: bool, v: Six)
    requires Reads(decoder, encoder)
    ensures Value(decoder, Char(encoder, v)) == v
  {
    ValueOfChar(v);
  }

  /** The tail digits and their padding give the last one or two bytes. */
  lemma TailBack(decoder: bool, encoder: bool, s: seq<Byte>, p: nat)
    requires Reads(decoder, encoder) && |s| < 3 && (decoder || p == PadCount(false, |s|))
    ensures |DigitText(encoder, s)| < 4 && DecodeTail(decoder, DigitText(encoder, s), p) == Decoding(s, true)
  {
    hide Value, Char, Digits, First, Second, Third;
    if |s| == 1 {
      assert DigitText(encoder, s) == [Char(encoder, Digits(s[0], 0, 0).0), Char(encoder, Digits(s[0], 0, 0).1)];
      var d := Digits(s[0], 0, 0);
      ReadsChar(decoder, encoder, d.0);
      ReadsChar(decoder, encoder, d.1);
      DigitsBack(s[0], 0, 0);
    } else if |s| == 2 {
      var d := Digits(s[0], s[1], 0);
      ReadsChar(decoder, encoder, d.0);
      ReadsChar(decoder, encoder, d.1);
      ReadsChar(decoder, encoder, d.2);
      DigitsBack(s[0], s[1], 0);
    }
  }

  lemma GroupBack(decoder: bool, encoder: bool, v1: Six, v2: Six, v3: Six, v4: Six)
    requires Reads(decoder, encoder)
    ensures DecodeGroup(decoder, [Char(encoder, v1), Char(encoder, v2), Char(encoder, v3), Char(encoder, v4)])
            == Decoding([First(v1, v2), Second(v2, v3), Third(v3, v4)], true)
  {
    hide Value, Char, First, Second, Third;
    ReadsChar(decoder, encoder, v1);
    ReadsChar(decoder, encoder, v2);
    ReadsChar(decoder, encoder, v3);
    ReadsChar(decoder, encoder, v4);
  }

  lemma {:induction false} DigitsDecode(decoder: bool, encoder: bool, s: seq<Byte>, p: nat)
    requires Reads(decoder, encoder) && (decoder || p == PadCount(false, |s|))
    ensures DecodeDigits(decoder, DigitText(encoder, s), p) == Decoding(s, true)
    decreases |s|
  {
    hide Digits, Char, DecodeGroup, DecodeTail;
    if |s| < 3 {
      TailBack(decoder, encoder, s, p);
    } else {
      var d := Digits(s[0], s[1], s[2]);
      var group := [Char(encoder, d.0), Char(encoder, d.1), Char(encoder, d.2), Char(encoder, d.3)];
      var t := DigitText(encoder, s);
      assert t[..4] == group && t[4..] == DigitText(encoder, s[3..]);
      GroupBack(decoder, encoder, d.0, d.1, d.2, d.3);
      DigitsBack(s[0], s[1], s[2]);
      DigitsDecode(decoder, encoder, s[3..], p);
      assert [s[0], s[1], s[2]] + s[3..] == s;
    }
  }

  lemma PadsAre(n: nat)
    requires n <= 2
    ensures |Pads(n)| == n && forall i | 0 <= i < n :: Pads(n)[i] == '='
  {
    assert Pads(0) == "" && Pads(1) == "=" + Pads(0);
  }

  /** What the decoder finds at the end of an encoded text. */
  lemma PaddingFound(url: bool, s: seq<Byte>)
    ensures var t := Encode(url, s); Padding(t) == PadCount(url, |s|) && TrimEnd(t) == t && t[..|t| - Padding(t)] == DigitText(url, s)
  {
    hide DigitText, Encode;
    EncodeParts(url, s);
    PadsAre(PadCount(url, |s|));
  }

  /** The room a decoder demands for the text of n bytes: one or two bytes too many where the text is unpadded. */
  function Demand(decoder: bool, encoder: bool, n: nat): nat {
    if decoder && encoder then n + n % 3 else n
  }

  lemma RoomIsExact(decoder: bool, encoder: bool, s: seq<Byte>)
    requires Reads(decoder, encoder) && s != [] && |s| < TWO_64
    ensures var t := Encode(encoder, s);
            DecodedRoom(decoder, |t|, Padding(t)) == Demand(decoder, encoder, |s|) && t != "" && (Padding(t) == 0 && decoder ==> |t| % 4 != 1)
  {
    hide DigitText, Encode;
    EncodeParts(encoder, s);
    PaddingFound(encoder, s);
    PadsAre(PadCount(encoder, |s|));
    RoomArithmetic(decoder, encoder, |s|);
  }

  lemma RoomArithmetic(decoder: bool, encoder: bool, n: nat)
    requires Reads(decoder, encoder) && 0 < n < TWO_64
    ensures var p := PadCount(encoder, n);
            var len := n / 3 * 4 + (if n % 3 == 0 then 0 else n % 3 + 1) + p;
            DecodedRoom(decoder, len, p) == Demand(decoder, encoder, n) && len > 0 && (p == 0 && decoder ==> len % 4 != 1)
  {
    var q, r := n / 3, n % 3;
    var p := PadCount(encoder, n);
    ThreeQuarters(q, if p > 0 then 4 else if r == 0 then 0 else r + 1);
  }

  lemma ThreeQuarters(q: nat, e: nat)
    requires e <= 4
    ensures (4 * q + e) * 3 / 4 == 3 * q + e * 3 / 4 && (4 * q + e) % 4 == e % 4
  {
    var m := 4 * q + e;
    assert m * 3 == (3 * q) * 4 + e * 3;
  }

  /**
   Decoding inverts encoding in both alphabets, and the URL decoder inverts the standard encoder as well, exactly when the
   output has the room that the decoder demands.
   */
  lemma RoundTrip(decoder: bool, encoder: bool, s: seq<Byte>, outputSize: nat)
    requires Reads(decoder, encoder) && |s| < TWO_64
    ensures Decode(decoder, Encode(encoder, s), outputSize) == Decoding(s, true) <==> outputSize >= Demand(decoder, encoder, |s|)
  {
    hide DigitText, Encode, DecodeDigits, DecodedRoom;
    PaddingFound(encoder, s);
    if s != [] {
      RoomIsExact(decoder, encoder, s);
      DigitsDecode(decoder, encoder, s, PadCount(encoder, |s|));
    } else {
      assert Encode(encoder, s) == "" by { NothingToEncode(encoder); }
    }
  }

  lemma NothingToEncode(url: bool)
    ensures Encode(url, []) == ""
  {
  }

  /** The URL decoder refuses to read the text of one byte into a single byte of room. */
  lemma UrlDemandsMore()
    ensures Demand(true, true, 1) == 2 && Decode(true, Encode(true, [0]), 1) != Decoding([0], true)
  {
    RoundTrip(true, true, [0], 1);
  }

  /** Examples of section 10 of RFC 4648: f, fo and foobar. */
  lemma Examples()
    ensures Encode(false, [0x66]) == "Zg==" && Encode(false, [0x66, 0x6f]) == "Zm8="
    ensures Encode(true, [0x66]) == "Zg" && Encode(true, [0x66, 0x6f]) == "Zm8"
    ensures Encode(false, [0x66, 0x6f, 0x6f, 0x62, 0x61, 0x72]) == "Zm9vYmFy"
  {
    var s: seq<Byte> := [0x66, 0x6f, 0x6f, 0x62, 0x61, 0x72];
    EncodeGroup(false, s);
    EncodeThree(false, s[3..]);
  }

  // ---------- Does the demanded room bound what is written? ----------

  /** The most that is written for n characters before p padding characters. */
  function MostWritten(url: bool, n: nat, p: nat): nat {
    n / 4 * 3 + if n % 4 < 2 || (!url && p == 0) then 0 else if n % 4 == 2 || (!url && p != 1) then 1 else 2
  }

  lemma {:induction false} WrittenAtMost(url: bool, t: string, p: nat)
    requires p <= 2
    ensures |DecodeDigits(url, t, p).written| <= MostWritten(url, |t|, p)
    ensures (forall i | 0 <= i < |t| :: t[i] == 'A') ==> |DecodeDigits(url, t, p).written| == MostWritten(url, |t|, p)
  {
    hide DecodeGroup, DecodeTail, MostWritten;
    if |t| < 4 {
      TailAtMost(url, t, p);
    } else {
      GroupWrites(url, t[..4]);
      OneGroupMore(url, |t| - 4, p);
      WrittenAtMost(url, t[4..], p);
    }
  }

  lemma TailAtMost(url: bool, t: string, p: nat)
    requires |t| < 4 && p <= 2
    ensures |DecodeTail(url, t, p).written| <= MostWritten(url, |t|, p)
    ensures (forall i | 0 <= i < |t| :: t[i] == 'A') ==> |DecodeTail(url, t, p).written| == MostWritten(url, |t|, p)
  {
    hide First, Second, Value;
    ZeroDigit(url);
  }

  lemma GroupWrites(url: bool, t: string)
    requires |t| == 4
    ensures |DecodeGroup(url, t).written| == if DecodeGroup(url, t).ok then 3 else 0
    ensures (forall i | 0 <= i < |t| :: t[i] == 'A') ==> DecodeGroup(url, t).ok
  {
    hide First, Second, Third, Value;
    ZeroDigit(url);
  }

  lemma ZeroDigit(url: bool)
    ensures Value(url, 'A') == 0
  {
  }

  lemma OneGroupMore(url: bool, n: nat, p: nat)
    ensures MostWritten(url, n + 4, p) == MostWritten(url, n, p) + 3
  {
    assert (n + 4) / 4 == n / 4 + 1 && (n + 4) % 4 == n % 4;
  }

  /** The lengths n of the digits and p of the padding for which the demanded room is as much as can be written. */
  predicate RoomSuffices(url: bool, n: nat, p: nat) {
    p == 0 || n == 0 || (n % 4 != 0 && !(url && p == 2 && n % 4 == 3))
  }

  lemma RoomAgainstMost(url: bool, n: nat, p: nat)
    requires p <= 2 && n + p < TWO_64 && !(url && p == 0 && n % 4 == 1)
    ensures MostWritten(url, n, p) <= DecodedRoom(url, n + p, p) <==> RoomSuffices(url, n, p)
  {
    var k, r := n / 4, n % 4;
    assert n == 4 * k + r;
    assert (n + p) * 3 / 4 == 3 * k + (r + p) * 3 / 4;
  }

  ghost predicate WritesInside(url: bool, n: nat, p: nat) {
    forall t: string, size: nat | Padding(t) == p && |t| == n + p && (url || TrimEnd(t) == t) ::
      |Decode(url, t, size).written| <= size
  }

  /** No text of n characters and p padding characters makes a decoder write past the given size, exactly in these cases. */
  lemma WritesInsideExactly(url: bool, n: nat, p: nat)
    requires p <= 2 && n + p < TWO_64
    ensures WritesInside(url, n, p) <==> RoomSuffices(url, n, p)
  {
    hide DecodeDigits, MostWritten, DecodedRoom, TrimEnd;
    if RoomSuffices(url, n, p) {
      forall t: string, size: nat | Padding(t) == p && |t| == n + p && (url || TrimEnd(t) == t)
        ensures |Decode(url, t, size).written| <= size
      {
        WrittenAtMost(url, t[..n], p);
        if !(url && p == 0 && n % 4 == 1) { RoomAgainstMost(url, n, p); }
      }
    } else {
      var t, size := AllDigits(n) + Pads(p), DecodedRoom(url, n + p, p);
      PadsAre(p);
      TrimDone(t);
      assert t[..n] == AllDigits(n);
      WrittenAtMost(url, t[..n], p);
      RoomAgainstMost(url, n, p);
      assert |Decode(url, t, size).written| > size;
    }
  }

  function AllDigits(n: nat): (t: string)
    ensures |t| == n && forall i | 0 <= i < n :: t[i] == 'A'
  {
    seq(n, i => 'A')
  }

  // ---------- The code ----------

  lemma EncodeFits(url: bool, s: seq<Byte>)
    ensures |Encode(url, s)| <= EncodedRoom(|s|)
  {
    EncodeParts(url, s);
    PadsAre(PadCount(url, |s|));
  }

  /** The four characters of the first three bytes. */
  function FirstGroup(url: bool, s: seq<Byte>): string
    requires |s| >= 3
  {
    var d := Digits(s[0], s[1], s[2]);
    [Char(url, d.0), Char(url, d.1), Char(url, d.2), Char(url, d.3)]
  }

  lemma EncodeGroup(url: bool, s: seq<Byte>)
    requires |s| >= 3
    ensures Encode(url, s) == FirstGroup(url, s) + Encode(url, s[3..])
  {
  }

  /** Whole groups may be encoded apart from the rest. */
  lemma {:induction false} EncodeSplit(url: bool, s: seq<Byte>, i: nat)
    requires i <= |s| && i % 3 == 0
    ensures Encode(url, s) == Encode(url, s[..i]) + Encode(url, s[i..])
    decreases i
  {
    hide Encode;
    if i == 0 {
      NothingToEncode(url);
      assert s[..0] == [] && s[0..] == s;
    } else {
      EncodeSplit(url, s[3..], i - 3);
      EncodeGroup(url, s);
      EncodeGroup(url, s[..i]);
      hide FirstGroup;
      assert s[3..][..i - 3] == s[..i][3..] && s[3..][i - 3..] == s[i..];
      Regroup3(FirstGroup(url, s), Encode(url, s[..i][3..]), Encode(url, s[i..]));
    }
  }

  lemma EncodeThree(url: bool, t: seq<Byte>)
    requires |t| == 3
    ensures var d := Digits(t[0], t[1], t[2]); Encode(url, t) == [Char(url, d.0), Char(url, d.1), Char(url, d.2), Char(url, d.3)]
  {
    assert t[3..] == [];
  }

  /** The loop over whole groups. */
  method EncodeGroups(url: bool, input: seq<Byte>, output: array<char>) returns (i: nat, j: nat)
    requires output.Length >= EncodedRoom(|input|) + 1
    modifies output
    ensures i <= |input| < i + 3 && i % 3 == 0 && j == i / 3 * 4 && output[..j] == Encode(url, input[..i])
  {
    hide Digits, Char, Encode;
    i, j := 0, 0;
    assert output[..0] == "" == Encode(url, input[..0]) by { NothingToEncode(url); assert input[..0] == []; }
    while i + 2 < |input|
      invariant i <= |input| && i % 3 == 0 && j == i / 3 * 4 && output[..j] == Encode(url, input[..i])
    {
      var d := Digits(input[i], input[i + 1], input[i + 2]);
      output[j], output[j + 1], output[j + 2], output[j + 3] := Char(url, d.0), Char(url, d.1), Char(url, d.2), Char(url, d.3);
      EncodeThree(url, input[i..i + 3]);
      EncodeSplit(url, input[..i + 3], i);
      assert input[..i + 3][..i] == input[..i] && input[..i + 3][i..] == input[i..i + 3];
      i := i + 3;
      j := j + 4;
    }
  }

  /** vox_base64_encode and vox_base64url_encode: the length of the text, or -1 if it and its NUL do not fit. */
  method EncodeTo(url: bool, input: seq<Byte>, output: array<char>) returns (n: int)
    modifies output
    ensures n == if output.Length < EncodedRoom(|input|) + 1 then -1 else |Encode(url, input)|
    ensures n >= 0 ==> n < output.Length && output[..n] == Encode(url, input) && output[n] == '\0'
    ensures n < 0 ==> output[..] == old(output[..])
  {
    hide Digits, Char;
    var len := |input|;
    if output.Length < EncodedRoom(len) + 1 {
      return -1;
    }
    EncodeFits(url, input);
    var i, j := EncodeGroups(url, input, output);
    EncodeSplit(url, input, i);
    ghost var before := output[..j];
    if i < len {
      if i == len - 1 {
        var d := Digits(input[i], 0, 0);
        output[j], output[j + 1] := Char(url, d.0), Char(url, d.1);
        j := j + 2;
        if !url {
          output[j], output[j + 1] := '=', '=';
          j := j + 2;
        }
      } else {
        var d := Digits(input[i], input[i + 1], 0);
        output[j], output[j + 1], output[j + 2] := Char(url, d.0), Char(url, d.1), Char(url, d.2);
        j := j + 3;
        if !url {
          output[j] := '=';
          j := j + 1;
        }
      }
    }
    assert output[..j] == before + Encode(url, input[i..]);
    output[j] := '\0';
    n := j;
  }

  /** The loop of the decoders over whole groups: what they write, and whether all their characters were digits. */
  method DecodeGroups(url: bool, t: string, output: array<Byte>, ghost p: nat) returns (ok: bool, i: nat, j: nat)
    requires |DecodeDigits(url, t, p).written| <= output.Length
    modifies output
    ensures j <= output.Length && output[j..] == old(output[j..])
    ensures ok ==> i <= |t| < i + 4 && i % 4 == 0 && DecodeDigits(url, t, p) == After(output[..j], DecodeTail(url, t[i..], p))
    ensures !ok ==> DecodeDigits(url, t, p) == Decoding(output[..j], false)
  {
    hide Value, DecodeTail, DecodeDigits, First, Second, Third;
    i, j := 0, 0;
    assert t[0..] == t;
    while i + 4 <= |t|
      invariant i <= |t| && i % 4 == 0 && j <= output.Length && output[j..] == old(output[j..])
      invariant DecodeDigits(url, t, p) == After(output[..j], DecodeDigits(url, t[i..], p))
    {
      var v1, v2, v3, v4 := Value(url, t[i]), Value(url, t[i + 1]), Value(url, t[i + 2]), Value(url, t[i + 3]);
      StepDigits(url, t, i, output[..j], p);
      if v1 < 0 || v2 < 0 || v3 < 0 || v4 < 0 {
        return false, i, j;
      }
      ghost var done := output[..j];
      output[j], output[j + 1], output[j + 2] := First(v1, v2), Second(v2, v3), Third(v3, v4);
      assert output[..j + 3] == done + [First(v1, v2), Second(v2, v3), Third(v3, v4)];
      i := i + 4;
      j := j + 3;
    }
    TailIsLeft(url, t[i..], p);
    ok := true;
  }

  lemma TailIsLeft(url: bool, t: string, p: nat)
    requires |t| < 4
    ensures DecodeDigits(url, t, p) == DecodeTail(url, t, p)
  {
  }

  /** Decoding from i on, after what was decoded before: the next group is put to it or ends the decoding. */
  lemma StepDigits(url: bool, t: string, i: nat, done: seq<Byte>, p: nat)
    requires i + 4 <= |t|
    ensures var g := DecodeGroup(url, t[i..i + 4]);
            After(done, DecodeDigits(url, t[i..], p))
            == if g.ok then After(done + g.written, DecodeDigits(url, t[i + 4..], p)) else Decoding(done, false)
  {
    hide Value, DecodeTail;
    var u := t[i..];
    assert u[..4] == t[i..i + 4] && u[4..] == t[i + 4..];
    var g, r := DecodeGroup(url, u[..4]), DecodeDigits(url, u[4..], p);
    assert done + (g.written + r.written) == (done + g.written) + r.written;
  }

  /** What is returned: the number of bytes written, or -1. */
  function Returned(d: Decoding): int { if d.ok then |d.written| else -1 }

  /** The output holds exactly what d has written, and is as before from there on. */
  twostate predicate Wrote(output: array<Byte>, d: Decoding)
    reads output
  {
    |d.written| <= output.Length && output[..|d.written|] == d.written && output[|d.written|..] == old(output[|d.written|..])
  }

  /** vox_base64_decode, with an output that reaches as far as the decoder writes. */
  method DecodeStandard(encoded: string, output: array<Byte>, outputSize: nat) returns (n: int)
    requires |Decode(false, encoded, outputSize).written| <= output.Length
    modifies output
    ensures n == Returned(Decode(false, encoded, outputSize)) && Wrote(output, Decode(false, encoded, outputSize))
  {
    hide Value, DecodeDigits, TrimEnd;
    var len := |encoded|;
    ghost var all := TrimEnd(encoded);
    assert encoded[..len] == encoded;
    while len > 0 && IsBlank(encoded[len - 1])
      invariant 0 <= len <= |encoded| && TrimEnd(encoded[..len]) == all
    {
      assert encoded[..len][..len - 1] == encoded[..len - 1];
      assert TrimEnd(encoded[..len]) == TrimEnd(encoded[..len - 1]) by { TrimOne(encoded[..len]); }
      len := len - 1;
    }
    TrimDone(encoded[..len]);
    var t := encoded[..len];
    if len == 0 {
      return 0;
    }
    var padding := 0;
    if t[len - 1] == '=' { padding := padding + 1; }
    if len > 1 && t[len - 2] == '=' { padding := padding + 1; }
    if outputSize < (len * 3 / 4 - padding) % TWO_64 {
      return -1;
    }
    var processLen := len - padding;
    var ok, i, j := DecodeGroups(false, t[..processLen], output, padding);
    if !ok {
      return -1;
    }
    assert t[..processLen][i..] == t[i..processLen];
    n := StandardTail(t, i, padding, output, j);
  }

  lemma TrimOne(t: string)
    requires t != "" && IsBlank(t[|t| - 1])
    ensures TrimEnd(t) == TrimEnd(t[..|t| - 1])
  {
  }

  lemma TrimDone(t: string)
    requires t == "" || !IsBlank(t[|t| - 1])
    ensures TrimEnd(t) == t
  {
  }

  /** The end of vox_base64_decode, from position i of the text and j of the output on. */
  method StandardTail(t: string, i: nat, padding: nat, output: array<Byte>, j: nat) returns (n: int)
    requires t != "" && padding == Padding(t) && i <= |t| - padding < i + 4
    requires j + |DecodeTail(false, t[i..|t| - padding], padding).written| <= output.Length
    modifies output
    ensures var d := After(old(output[..j]), DecodeTail(false, t[i..|t| - padding], padding)); n == Returned(d) && Wrote(output, d)
  {
    var len, processLen := |t|, |t| - padding;
    ghost var d, done := t[i..processLen], output[..j];
    var k := j;
    if padding > 0 && i < len {
      var v1 := Value(false, t[i]);
      var v2 := if i + 1 < len then Value(false, t[i + 1]) else -1;
      if v1 < 0 || v2 < 0 {
        return -1;
      }
      output[k] := First(v1, v2);
      k := k + 1;
      assert output[..k] == done + [First(v1, v2)];
      if padding == 1 && i + 2 < len {
        var v3 := Value(false, t[i + 2]);
        if v3 < 0 {
          return -1;
        }
        output[k] := Second(v2, v3);
        k := k + 1;
      }
    } else if i < processLen {
      return -1;
    }
    n := k;
  }

  /** vox_base64url_decode, with an output that reaches as far as the decoder writes. */
  method DecodeUrl(encoded: string, output: array<Byte>, outputSize: nat) returns (n: int)
    requires |Decode(true, encoded, outputSize).written| <= output.Length
    modifies output
    ensures n == Returned(Decode(true, encoded, outputSize)) && Wrote(output, Decode(true, encoded, outputSize))
  {
    hide Value, DecodeDigits;
    var len := |encoded|;
    if len == 0 {
      return 0;
    }
    var padding := 0;
    if encoded[len - 1] == '=' { padding := padding + 1; }
    if len > 1 && encoded[len - 2] == '=' { padding := padding + 1; }
    var outputLen;
    if padding == 0 {
      var remainder := len % 4;
      if remainder == 0 {
        outputLen := len * 3 / 4;
      } else if remainder == 1 {
        return -1;
      } else if remainder == 2 {
        outputLen := len * 3 / 4 + 1;
      } else {
        outputLen := len * 3 / 4 + 2;
      }
    } else {
      outputLen := (len * 3 / 4 - padding) % TWO_64;
    }
    if outputSize < outputLen {
      return -1;
    }
    var remaining := len - padding;
    var ok, i, j := DecodeGroups(true, encoded[..remaining], output, padding);
    if !ok {
      return -1;
    }
    assert encoded[..remaining][i..] == encoded[i..remaining];
    n := UrlTail(encoded[..remaining], i, padding, output, j);
  }

  /** The end of vox_base64url_decode, from position i of the text and j of the output on. */
  method UrlTail(t: string, i: nat, padding: nat, output: array<Byte>, j: nat) returns (n: int)
    requires i <= |t| < i + 4 && j + |DecodeTail(true, t[i..], padding).written| <= output.Length
    modifies output
    ensures var d := After(old(output[..j]), DecodeTail(true, t[i..], padding)); n == Returned(d) && Wrote(output, d)
  {
    var remaining := |t|;
    ghost var done := output[..j];
    var k := j;
    if i < remaining {
      var v1 := Value(true, t[i]);
      if v1 < 0 {
        return -1;
      }
      if i + 1 >= remaining {
        return -1;
      }
      var v2 := Value(true, t[i + 1]);
      if v2 < 0 {
        return -1;
      }
      output[k] := First(v1, v2);
      k := k + 1;
      assert output[..k] == done + [First(v1, v2)];
      if i + 2 < remaining {
        var v3 := Value(true, t[i + 2]);
        if v3 < 0 {
          return -1;
        }
        output[k] := Second(v2, v3);
        k := k + 1;
      }
    }
    n := k;
  }
}
