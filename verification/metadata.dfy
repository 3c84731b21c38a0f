/**
 * The capture record `metadata.json`: the text `JSON.stringify(record, null, 2)`
 * writes for it, and the record `JSON.parse` reads back from that text.
 */
module Meta {
  import opened Common
  import opened Strings

  /** What a capture records about itself next to its files. */
  datatype Metadata = Metadata(
    timestamp: string, sourceUrl: string, hash: string, htmlSize: nat, cssSize: nat)

  // ---------------------------------------------------------------------------
  // String lengths
  // ---------------------------------------------------------------------------

  /** How many UTF-16 code units a character takes: two outside the Basic Multilingual Plane. */
  function Utf16Units(c: char): (n: nat)
    ensures n == 1 || n == 2
  {
    if c as int < 0x10000 then 1 else 2
  }

  /** `s.length` in JavaScript: the number of UTF-16 code units of `s`. */
  function Utf16Length(s: string): (n: nat)
    ensures |s| <= n <= 2 * |s|
  {
    if |s| == 0 then 0 else Utf16Units(s[0]) + Utf16Length(s[1..])
  }

  /** The code-unit length of a concatenation is the sum of the lengths. */
  lemma {:induction false} Utf16LengthConcat(a: string, b: string)
    ensures Utf16Length(a + b) == Utf16Length(a) + Utf16Length(b)
  {
    if |a| > 0 {
      assert (a + b)[0] == a[0] && (a + b)[1..] == a[1..] + b;
      Utf16LengthConcat(a[1..], b);
    } else {
      assert a + b == b;
    }
  }

  /** A text of Basic Multilingual Plane characters has as many code units as characters, and only such a text. */
  lemma {:induction false} Utf16LengthBmp(s: string)
    ensures Utf16Length(s) == |s| <==> forall i :: 0 <= i < |s| ==> s[i] as int < 0x10000
  {
    if |s| > 0 {
      Utf16LengthBmp(s[1..]);
      assert forall i :: 1 <= i < |s| ==> s[1..][i - 1] == s[i];
      if Utf16Length(s) == |s| {
        assert Utf16Units(s[0]) == 1;
      }
    }
  }

  // ---------------------------------------------------------------------------
  // String literals
  // ---------------------------------------------------------------------------

  function HexDigit(d: nat): (c: char)
    requires d < 16
  {
    if d < 10 then ('0' as int + d) as char else ('a' as int + d - 10) as char
  }

  /** The value of one hexadecimal digit of either case. */
  function HexValue(c: char): (r: Option<nat>)
    ensures r.Some? ==> r.value < 16
  {
    if '0' <= c <= '9' then Some(c as int - '0' as int)
    else if 'a' <= c <= 'f' then Some(c as int - 'a' as int + 10)
    else if 'A' <= c <= 'F' then Some(c as int - 'A' as int + 10)
    else None
  }

  lemma HexValueOfDigit(d: nat)
    requires d < 16
    ensures HexValue(HexDigit(d)) == Some(d)
  {
  }

  /**
   * How `JSON.stringify` writes one character inside a string literal: the
   * quote, the backslash and the five named controls get a two-character
   * escape, other controls a `\u00xx` escape in lower-case hexadecimal, and
   * everything else stands for itself.
   */
  function EscapeChar(c: char): (r: string)
    ensures 1 <= |r| <= 6
    ensures |r| == 1 <==> r == [c]
  {
    if c == '"' then "\\\""
    else if c == '\\' then "\\\\"
    else if c as int == 8 then "\\b"
    else if c as int == 12 then "\\f"
    else if c == '\n' then "\\n"
    else if c == '\r' then "\\r"
    else if c == '\t' then "\\t"
    else if c < ' ' then "\\u00" + [HexDigit(c as int / 16), HexDigit(c as int % 16)]
    else [c]
  }

  function Escape(s: string): (r: string)
    ensures |r| >= |s|
  {
    if |s| == 0 then "" else EscapeChar(s[0]) + Escape(s[1..])
  }

  /** The string literal `JSON.stringify` writes for `s`. */
  function Quote(s: string): (r: string)
    ensures |r| >= 2 && r[0] == '"' && r[|r| - 1] == '"'
  {
    "\"" + Escape(s) + "\""
  }

  /** The escape sequence at the head of `t`: the character it stands for and its length. */
  function ReadEscape(t: string): (r: Option<(char, nat)>)
    requires |t| >= 2 && t[0] == '\\'
    ensures r.Some? ==> 2 <= r.value.1 <= |t|
  {
    var e := t[1];
    if e == '"' || e == '\\' || e == '/' then Some((e, 2))
    else if e == 'b' then Some((8 as char, 2))
    else if e == 'f' then Some((12 as char, 2))
    else if e == 'n' then Some(('\n', 2))
    else if e == 'r' then Some(('\r', 2))
    else if e == 't' then Some(('\t', 2))
    else if e == 'u' && |t| >= 6 then
      match (HexValue(t[2]), HexValue(t[3]), HexValue(t[4]), HexValue(t[5]))
      case (Some(a), Some(b), Some(c), Some(d)) =>
        var v := ((a * 16 + b) * 16 + c) * 16 + d;
        if 0xD800 <= v < 0xE000 then None else Some((v as char, 6))
      case _ => None
    else None
  }

  /** Puts `c` in front of the characters read so far. */
  function Cons(c: char, r: Option<(string, string)>): Option<(string, string)> {
    match r
    case None => None
    case Some((v, rest)) => Some(([c] + v, rest))
  }

  /**
   * The characters of a string literal whose opening quote has been read: its
   * value and the text after its closing quote. A raw control character, an
   * unknown escape or a missing closing quote make the text unreadable.
   */
  function ReadChars(t: string): (r: Option<(string, string)>)
    ensures r.Some? ==> |r.value.1| < |t|
    decreases |t|
  {
    if |t| == 0 then None
    else if t[0] == '"' then Some(("", t[1..]))
    else if t[0] == '\\' then
      if |t| < 2 then None
      else
        match ReadEscape(t)
        case None => None
        case Some((c, n)) => Cons(c, ReadChars(t[n..]))
    else if t[0] < ' ' then None
    else Cons(t[0], ReadChars(t[1..]))
  }

  /** A string literal at the head of `t`. */
  function ReadString(t: string): (r: Option<(string, string)>)
    ensures r.Some? ==> |r.value.1| < |t|
  {
    if |t| > 0 && t[0] == '"' then ReadChars(t[1..]) else None
  }

  /** One escaped character reads back as itself. */
  lemma ReadCharsEscapeChar(c: char, u: string)
    ensures ReadChars(EscapeChar(c) + u) == Cons(c, ReadChars(u))
  {
    var t := EscapeChar(c) + u;
    if |EscapeChar(c)| == 1 {
      assert t[0] == c && t[1..] == u;
    } else if c < ' ' && c as int != 8 && c as int != 12 && c != '\n' && c != '\r' && c != '\t' {
      ReadEscapeControl(c, u);
      assert t[6..] == u;
    } else {
      assert t[0] == '\\' && t[2..] == u;
    }
  }

  /** A control character without a short escape reads back from its `\\u00XX` form. */
  lemma ReadEscapeControl(c: char, u: string)
    requires c < ' ' && c as int != 8 && c as int != 12 && c != '\n' && c != '\r' && c != '\t'
    ensures |EscapeChar(c) + u| >= 6 && (EscapeChar(c) + u)[0] == '\\'
    ensures ReadEscape(EscapeChar(c) + u) == Some((c, 6))
  {
    var t := EscapeChar(c) + u;
    var hi, lo := c as int / 16, c as int % 16;
    HexValueOfDigit(hi);
    HexValueOfDigit(lo);
    assert t[0] == '\\' && t[1] == 'u' && t[2] == '0' && t[3] == '0';
    assert t[4] == HexDigit(hi) && t[5] == HexDigit(lo);
  }

  /** A literal `JSON.stringify` writes reads back as the string it was made from. */
  lemma {:induction false} ReadCharsEscape(s: string, rest: string)
    ensures ReadChars(Escape(s) + "\"" + rest) == Some((s, rest))
  {
    if |s| == 0 {
      assert Escape(s) + "\"" + rest == "\"" + rest;
    } else {
      var u := Escape(s[1..]) + "\"" + rest;
      EscapeFront(s, rest);
      ReadCharsEscapeChar(s[0], u);
      ReadCharsEscape(s[1..], rest);
      assert [s[0]] + s[1..] == s;
    }
  }

  lemma EscapeFront(s: string, rest: string)
    requires |s| > 0
    ensures Escape(s) + "\"" + rest == EscapeChar(s[0]) + (Escape(s[1..]) + "\"" + rest)
  {
    assert Escape(s) == EscapeChar(s[0]) + Escape(s[1..]);
    Regroup(EscapeChar(s[0]), Escape(s[1..]), "\"", rest);
  }

  lemma Regroup(x: string, y: string, q: string, z: string)
    ensures x + y + q + z == x + (y + q + z)
  {
  }

  lemma ReadStringQuote(s: string, rest: string)
    ensures ReadString(Quote(s) + rest) == Some((s, rest))
  {
    assert (Quote(s) + rest)[1..] == Escape(s) + "\"" + rest;
    ReadCharsEscape(s, rest);
  }

  // ---------------------------------------------------------------------------
  // Numbers
  // ---------------------------------------------------------------------------

  /** The length of the run of decimal digits at the head of `t`. */
  function DigitRun(t: string): (n: nat)
    ensures n <= |t|
    ensures forall i :: 0 <= i < n ==> IsDigit(t[i])
    ensures n < |t| ==> !IsDigit(t[n])
  {
    if |t| > 0 && IsDigit(t[0]) then
      var n := DigitRun(t[1..]);
      assert forall i :: 1 <= i < n + 1 ==> t[i] == t[1..][i - 1];
      1 + n
    else 0
  }

  /** A JSON number that is a natural: digits without a superfluous leading zero. */
  function ReadNat(t: string): (r: Option<(nat, string)>)
    ensures r.Some? ==> |r.value.1| < |t|
  {
    var k := DigitRun(t);
    if k == 0 || (k > 1 && t[0] == '0') then None
    else Some((DigitsValue(t[..k]), t[k..]))
  }

  /** `String(n)` starts with '0' only for zero itself. */
  lemma {:induction false} NatToStringLead(n: nat)
    ensures NatToString(n)[0] == '0' ==> n == 0
  {
    if n >= 10 {
      NatToStringLead(n / 10);
      assert NatToString(n)[0] == NatToString(n / 10)[0];
    }
  }

  /** A number `JSON.stringify` writes reads back, when no digit follows it. */
  lemma ReadNatString(n: nat, rest: string)
    requires |rest| == 0 || !IsDigit(rest[0])
    ensures ReadNat(NatToString(n) + rest) == Some((n, rest))
  {
    var s := NatToString(n);
    var t := s + rest;
    DigitRunOfDigits(s, rest);
    NatToStringLead(n);
    if n >= 10 {
      assert |s| > 1;
    }
    assert t[..|s|] == s && t[|s|..] == rest;
    DigitsValueOfNatToString(n);
  }

  lemma {:induction false} DigitRunOfDigits(s: string, rest: string)
    requires AllDigits(s)
    requires |rest| == 0 || !IsDigit(rest[0])
    ensures DigitRun(s + rest) == |s|
  {
    if |s| > 0 {
      assert (s + rest)[0] == s[0] && (s + rest)[1..] == s[1..] + rest;
      DigitRunOfDigits(s[1..], rest);
    } else {
      assert s + rest == rest;
    }
  }

  // ---------------------------------------------------------------------------
  // The record
  // ---------------------------------------------------------------------------

  const TimestampLead: string := "{\n  \"timestamp\": "
  const SourceUrlLead: string := ",\n  \"sourceUrl\": "
  const HashLead: string := ",\n  \"hash\": "
  const HtmlSizeLead: string := ",\n  \"htmlSize\": "
  const CssSizeLead: string := ",\n  \"cssSize\": "
  const Close: string := "\n}"

  /** A member whose value is a string, introduced by `lead`. */
  function StringMember(lead: string, v: string): string {
    lead + Quote(v)
  }

  /** A member whose value is a natural, introduced by `lead`. */
  function NatMember(lead: string, n: nat): string {
    lead + NatToString(n)
  }

  /**
   * `JSON.stringify(m, null, 2)`: one member per line, indented by two
   * spaces, in the order the fields were written.
   */
  function Encode(m: Metadata): (text: string)
    ensures IsPrefix(TimestampLead, text)
  {
    StringMember(TimestampLead, m.timestamp)
    + (StringMember(SourceUrlLead, m.sourceUrl)
    + (StringMember(HashLead, m.hash)
    + (NatMember(HtmlSizeLead, m.htmlSize)
    + (NatMember(CssSizeLead, m.cssSize) + Close))))
  }

  /** The text after `lead`, when `t` starts with it. */
  function After(t: string, lead: string): (r: Option<string>)
    ensures r.Some? ==> IsPrefix(lead, t) && r.value == t[|lead|..]
  {
    if IsPrefix(lead, t) then Some(t[|lead|..]) else None
  }

  function ReadStringMember(t: string, lead: string): Option<(string, string)> {
    match After(t, lead)
    case None => None
    case Some(u) => ReadString(u)
  }

  function ReadNatMember(t: string, lead: string): Option<(nat, string)> {
    match After(t, lead)
    case None => None
    case Some(u) => ReadNat(u)
  }

  /**
   * `JSON.parse` of a record text in the layout `Encode` writes; any other
   * text reads as `None`.
   */
  function Decode(text: string): (r: Option<Metadata>)
    ensures r.Some? ==> IsPrefix(TimestampLead, text)
  {
    match ReadStringMember(text, TimestampLead)
    case None => None
    case Some((timestamp, t1)) =>
      match ReadStringMember(t1, SourceUrlLead)
      case None => None
      case Some((sourceUrl, t2)) =>
        match ReadStringMember(t2, HashLead)
        case None => None
        case Some((hash, t3)) =>
          match ReadNatMember(t3, HtmlSizeLead)
          case None => None
          case Some((htmlSize, t4)) =>
            match ReadNatMember(t4, CssSizeLead)
            case None => None
            case Some((cssSize, t5)) =>
              if t5 == Close then Some(Metadata(timestamp, sourceUrl, hash, htmlSize, cssSize)) else None
  }

  lemma ReadStringMemberOf(lead: string, v: string, rest: string)
    ensures ReadStringMember(StringMember(lead, v) + rest, lead) == Some((v, rest))
  {
    var t := StringMember(lead, v) + rest;
    assert t[..|lead|] == lead && t[|lead|..] == Quote(v) + rest;
    ReadStringQuote(v, rest);
  }

  lemma ReadNatMemberOf(lead: string, n: nat, rest: string)
    requires |rest| > 0 && !IsDigit(rest[0])
    ensures ReadNatMember(NatMember(lead, n) + rest, lead) == Some((n, rest))
  {
    var t := NatMember(lead, n) + rest;
    assert t[..|lead|] == lead && t[|lead|..] == NatToString(n) + rest;
    ReadNatString(n, rest);
  }

  /** Reading back the text `JSON.stringify` writes for a record gives the record. */
  lemma DecodeEncode(m: Metadata)
    ensures Decode(Encode(m)) == Some(m)
  {
    var t5 := Close;
    var t4 := NatMember(CssSizeLead, m.cssSize) + t5;
    var t3 := NatMember(HtmlSizeLead, m.htmlSize) + t4;
    var t2 := StringMember(HashLead, m.hash) + t3;
    var t1 := StringMember(SourceUrlLead, m.sourceUrl) + t2;
    ReadStringMemberOf(TimestampLead, m.timestamp, t1);
    ReadStringMemberOf(SourceUrlLead, m.sourceUrl, t2);
    ReadStringMemberOf(HashLead, m.hash, t3);
    assert t4[0] == ',';
    ReadNatMemberOf(HtmlSizeLead, m.htmlSize, t4);
    assert t5[0] == '\n';
    ReadNatMemberOf(CssSizeLead, m.cssSize, t5);
  }
}
