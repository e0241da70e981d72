/** JSON text for arrays of strings: what `JSON.stringify(terms)` produces for a
    `string[]` (arrays: section 5 of RFC 8259; strings: section 7 of RFC 8259, escaped the
    way ECMAScript's QuoteJSONString does), and a parser for such text that serves as its
    inverse. */
module JsonStrings {
  import opened Wrappers
  import opened Numerals

  /** How `JSON.stringify` writes one character inside a string literal: the two-character
      escapes for backspace, tab, line feed, form feed, carriage return, quotation mark and
      reverse solidus; `\u00XX` with lower-case hexadecimal for the remaining control
      characters; every other character as itself. */
  function EscapeChar(c: char): (r: string)
    ensures |r| >= 1
    ensures |r| == 1 <==> (c as int >= 0x20 && c != '"' && c != '\\')
    ensures |r| == 1 ==> r == [c]
    ensures |r| > 1 ==> r[0] == '\\'
  {
    var cp := c as int;
    if cp == 0x08 then "\\b"
    else if cp == 0x09 then "\\t"
    else if cp == 0x0A then "\\n"
    else if cp == 0x0C then "\\f"
    else if cp == 0x0D then "\\r"
    else if c == '"' then "\\\""
    else if c == '\\' then "\\\\"
    else if cp < 0x20 then "\\u00" + [HexDigitLower(cp / 16), HexDigitLower(cp % 16)]
    else [c]
  }

  function EscapeString(s: string): string
  {
    if s == [] then "" else EscapeChar(s[0]) + EscapeString(s[1..])
  }

  /** A JSON string literal: the escaped text between quotation marks. */
  function Quote(s: string): string
  {
    "\"" + EscapeString(s) + "\""
  }

  function Elements(xs: seq<string>): string
  {
    if xs == [] then ""
    else if |xs| == 1 then Quote(xs[0])
    else Quote(xs[0]) + "," + Elements(xs[1..])
  }

  /** `JSON.stringify` of an array of strings: the quoted elements, in order, separated by
      commas, between brackets, with no whitespace. */
  function StringifyArray(xs: seq<string>): string
  {
    "[" + Elements(xs) + "]"
  }

  /** Reads the character an escape sequence stands for; `s` is the text after the
      reverse solidus. A `\u` escape naming a surrogate code unit is rejected, so surrogate
      pairs written as two escapes are not accepted. */
  function Unescape(s: string): (r: Option<(char, string)>)
    ensures r.Some? ==> |r.value.1| < |s|
  {
    if s == [] then None
    else if s[0] == '"' then Some(('"', s[1..]))
    else if s[0] == '\\' then Some(('\\', s[1..]))
    else if s[0] == '/' then Some(('/', s[1..]))
    else if s[0] == 'b' then Some(('\U{8}', s[1..]))
    else if s[0] == 'f' then Some(('\U{C}', s[1..]))
    else if s[0] == 'n' then Some(('\n', s[1..]))
    else if s[0] == 'r' then Some(('\r', s[1..]))
    else if s[0] == 't' then Some(('\t', s[1..]))
    else if s[0] == 'u' && |s| >= 5
            && HexValue(s[1]).Some? && HexValue(s[2]).Some? && HexValue(s[3]).Some? && HexValue(s[4]).Some? then
      var v := HexValue(s[1]).value * 4096 + HexValue(s[2]).value * 256
               + HexValue(s[3]).value * 16 + HexValue(s[4]).value;
      if 0xD800 <= v < 0xE000 then None else Some((v as char, s[5..]))
    else None
  }

  /** Reads the characters of a string literal after its opening quotation mark, up to
      the closing one; gives the value and the text after the closing quotation mark.
      Unescaped control characters are rejected. */
  function ParseChars(s: string): (r: Option<(string, string)>)
    ensures r.Some? ==> |r.value.1| < |s|
    decreases |s|
  {
    if s == [] then None
    else if s[0] == '"' then Some(("", s[1..]))
    else if s[0] == '\\' then
      match Unescape(s[1..])
      case None => None
      case Some((c, rest)) =>
        match ParseChars(rest)
        case None => None
        case Some((v, after)) => Some(([c] + v, after))
    else if s[0] as int < 0x20 then None
    else
      match ParseChars(s[1..])
      case None => None
      case Some((v, after)) => Some(([s[0]] + v, after))
  }

  /** Reads the elements of an array after its opening bracket, through the closing
      bracket, which must end the text. */
  function ParseElements(s: string): (r: Option<seq<string>>)
    decreases |s|
  {
    if |s| == 0 || s[0] != '"' then None
    else
      match ParseChars(s[1..])
      case None => None
      case Some((v, rest)) =>
        if rest == "]" then Some([v])
        else if |rest| > 0 && rest[0] == ',' then
          match ParseElements(rest[1..])
          case None => None
          case Some(vs) => Some([v] + vs)
        else None
  }

  /** Parses JSON text that is an array of strings with no insignificant whitespace. */
  function ParseArray(s: string): Option<seq<string>>
  {
    if s == "[]" then Some([])
    else if |s| > 0 && s[0] == '[' then ParseElements(s[1..])
    else None
  }

  // ---------------------------------------------------------------------------------
  // Round trip

  lemma UnescapeEscape(c: char, rest: string)
    requires |EscapeChar(c)| > 1
    ensures Unescape((EscapeChar(c) + rest)[1..]) == Some((c, rest))
  {
    var e := EscapeChar(c);
    var cp := c as int;
    var t := (e + rest)[1..];
    if cp < 0x20 && cp != 0x08 && cp != 0x09 && cp != 0x0A && cp != 0x0C && cp != 0x0D {
      HexDigitRoundTrip(0);
      HexDigitRoundTrip(cp / 16);
      HexDigitRoundTrip(cp % 16);
      assert t[1] == '0' && t[2] == '0' && t[3] == HexDigitLower(cp / 16) && t[4] == HexDigitLower(cp % 16);
      assert t[5..] == rest;
    } else {
      assert t[1..] == rest;
    }
  }

  /** A string's escaped text followed by a quotation mark reads back as the string,
      leaving exactly the text after that quotation mark. */
  lemma {:induction false} ParseCharsEscaped(s: string, rest: string)
    ensures ParseChars(EscapeString(s) + "\"" + rest) == Some((s, rest))
  {
    var t := EscapeString(s) + "\"" + rest;
    if s == [] {
      assert t[1..] == rest;
    } else {
      var e := EscapeChar(s[0]);
      var tail := EscapeString(s[1..]) + "\"" + rest;
      assert t == e + tail;
      ParseCharsEscaped(s[1..], rest);
      if |e| > 1 {
        UnescapeEscape(s[0], tail);
      } else {
        assert t[1..] == tail;
      }
      assert [s[0]] + s[1..] == s;
    }
  }

  /** A string literal followed by any text reads back as the string and that text. */
  lemma QuotedThen(x: string, after: string)
    ensures var t := Quote(x) + after;
            |t| > 0 && t[0] == '"' && ParseChars(t[1..]) == Some((x, after))
  {
    var t := Quote(x) + after;
    assert t[1..] == EscapeString(x) + "\"" + after;
    ParseCharsEscaped(x, after);
  }

  lemma {:induction false} ParseElementsOf(xs: seq<string>)
    requires |xs| >= 1
    ensures ParseElements(Elements(xs) + "]") == Some(xs)
  {
    if |xs| == 1 {
      QuotedThen(xs[0], "]");
      assert xs == [xs[0]];
    } else {
      var more := Elements(xs[1..]) + "]";
      assert Elements(xs) + "]" == Quote(xs[0]) + ("," + more);
      QuotedThen(xs[0], "," + more);
      assert ("," + more)[1..] == more;
      ParseElementsOf(xs[1..]);
      assert [xs[0]] + xs[1..] == xs;
    }
  }

  /** Parsing what `JSON.stringify` wrote for an array of strings gives back the array:
      the same strings, in the same order. */
  lemma ParseStringify(xs: seq<string>)
    ensures ParseArray(StringifyArray(xs)) == Some(xs)
  {
    var t := StringifyArray(xs);
    if xs != [] {
      ParseElementsOf(xs);
      assert t[0] == '[' && t[1..] == Elements(xs) + "]";
      assert t != "[]";
    }
  }

  /** Hence distinct arrays always serialize to distinct text. */
  lemma StringifyInjective(xs: seq<string>, ys: seq<string>)
    requires StringifyArray(xs) == StringifyArray(ys)
    ensures xs == ys
  {
    ParseStringify(xs);
    ParseStringify(ys);
  }
}
