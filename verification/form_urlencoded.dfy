/** The application/x-www-form-urlencoded format of section 5 of the WHATWG URL Standard:
    the serializer `URLSearchParams.toString()` applies (section 5.2), and a parser for it
    (section 5.1) that serves as the serializer's inverse. */
module FormUrlEncoded {
  import opened Wrappers
  import Utf8
  import opened Numerals
  import opened Text

  /** A name/value pair, as appended with `URLSearchParams.append(name, value)`. */
  type Pair = (string, string)

  /** Code points that are NOT in the application/x-www-form-urlencoded percent-encode set:
      ASCII alphanumerics and `*`, `-`, `.`, `_`. */
  predicate Unreserved(b: int)
  {
    || ('a' as int <= b <= 'z' as int)
    || ('A' as int <= b <= 'Z' as int)
    || ('0' as int <= b <= '9' as int)
    || b == '*' as int || b == '-' as int || b == '.' as int || b == '_' as int
  }

  /** The characters a serialized component can contain. */
  predicate EncodedChar(c: char)
  {
    Unreserved(c as int) || c == '+' || c == '%'
  }

  /** Percent-encode-after-encoding of one UTF-8 byte with space-as-plus: a space becomes
      `+`, an unreserved byte stands for itself, any other byte becomes `%` and two
      upper-case hexadecimal digits. */
  function EncodeByte(b: Utf8.Byte): string
  {
    if b == 0x20 then "+"
    else if Unreserved(b) then [b as char]
    else ['%', HexDigitUpper(b / 16), HexDigitUpper(b % 16)]
  }

  function EncodeBytes(bs: seq<Utf8.Byte>): (r: string)
    ensures forall i :: 0 <= i < |r| ==> EncodedChar(r[i])
  {
    if bs == [] then "" else EncodeByte(bs[0]) + EncodeBytes(bs[1..])
  }

  /** One serialized name or value: its UTF-8 bytes, percent-encoded. The result never
      contains the `&` and `=` delimiters, which is what lets a parser split it back out. */
  function EncodeComponent(s: string): (r: string)
    ensures forall i :: 0 <= i < |r| ==> EncodedChar(r[i])
    ensures '&' !in r && '=' !in r
  {
    EncodeBytes(Utf8.Encode(s))
  }

  function PairText(p: Pair): string
  {
    EncodeComponent(p.0) + "=" + EncodeComponent(p.1)
  }

  /** The serializer: each pair as `name=value`, in order, separated by `&`. */
  function Serialize(pairs: seq<Pair>): string
  {
    if pairs == [] then ""
    else if |pairs| == 1 then PairText(pairs[0])
    else PairText(pairs[0]) + "&" + Serialize(pairs[1..])
  }

  /** Percent-decoding after `+` has been replaced by a space: `%XY` with two hexadecimal
      digits is the byte XY, a `%` without them stays a literal `%`, and every other
      character stands for its own UTF-8 bytes. */
  function DecodeBytes(s: string): seq<Utf8.Byte>
    decreases |s|
  {
    if s == [] then []
    else if s[0] == '+' then [0x20] + DecodeBytes(s[1..])
    else if s[0] == '%' && |s| >= 3 && HexValue(s[1]).Some? && HexValue(s[2]).Some? then
      [HexValue(s[1]).value * 16 + HexValue(s[2]).value] + DecodeBytes(s[3..])
    else Utf8.EncodeScalar(s[0]) + DecodeBytes(s[1..])
  }

  /** A decoded name or value. Ill-formed UTF-8 is rejected here, where the standard would
      substitute U+FFFD. */
  function DecodeComponent(s: string): Option<string>
  {
    Utf8.Decode(DecodeBytes(s))
  }

  function ParsePair(part: string): Option<Pair>
  {
    var (n, v) := SplitFirst(part, '=');
    match (DecodeComponent(n), DecodeComponent(v))
    case (Some(name), Some(value)) => Some((name, value))
    case _ => None
  }

  /** Parses the `&`-separated parts in order, skipping empty ones. */
  function ParseParts(parts: seq<string>): Option<seq<Pair>>
  {
    if parts == [] then Some([])
    else if parts[0] == "" then ParseParts(parts[1..])
    else
      match (ParsePair(parts[0]), ParseParts(parts[1..]))
      case (Some(p), Some(ps)) => Some([p] + ps)
      case _ => None
  }

  /** The parser of section 5.1 (strict about UTF-8). */
  function Parse(s: string): Option<seq<Pair>>
  {
    ParseParts(Split(s, '&'))
  }

  /** `URLSearchParams.get(name)`: the value of the first pair with that name. */
  function Lookup(pairs: seq<Pair>, name: string): (r: Option<string>)
    ensures r.Some? <==> exists i :: 0 <= i < |pairs| && pairs[i].0 == name
  {
    if pairs == [] then None
    else if pairs[0].0 == name then Some(pairs[0].1)
    else Lookup(pairs[1..], name)
  }

  // ---------------------------------------------------------------------------------
  // Round trip

  lemma DecodeEncodeByte(b: Utf8.Byte, rest: string)
    ensures DecodeBytes(EncodeByte(b) + rest) == [b] + DecodeBytes(rest)
  {
    var e := EncodeByte(b);
    if b == 0x20 {
    } else if Unreserved(b) {
      assert (e + rest)[1..] == rest;
    } else {
      HexDigitRoundTrip(b / 16);
      HexDigitRoundTrip(b % 16);
      assert (e + rest)[3..] == rest;
    }
  }

  lemma {:induction false} DecodeEncodeBytes(bs: seq<Utf8.Byte>)
    ensures DecodeBytes(EncodeBytes(bs)) == bs
  {
    if bs != [] {
      DecodeEncodeByte(bs[0], EncodeBytes(bs[1..]));
      DecodeEncodeBytes(bs[1..]);
    }
  }

  /** Every name or value survives serialization and decoding unchanged. */
  lemma DecodeEncodeComponent(s: string)
    ensures DecodeComponent(EncodeComponent(s)) == Some(s)
  {
    DecodeEncodeBytes(Utf8.Encode(s));
    Utf8.DecodeEncode(s);
  }

  lemma ParsePairText(p: Pair)
    ensures ParsePair(PairText(p)) == Some(p)
  {
    SplitFirstAt(EncodeComponent(p.0), '=', EncodeComponent(p.1));
    DecodeEncodeComponent(p.0);
    DecodeEncodeComponent(p.1);
  }

  /** Splitting a nonempty serialization on `&` gives back one part per pair. */
  lemma {:induction false} SplitSerialize(pairs: seq<Pair>)
    requires |pairs| >= 1
    ensures Split(Serialize(pairs), '&') == seq(|pairs|, i requires 0 <= i < |pairs| => PairText(pairs[i]))
  {
    var first := PairText(pairs[0]);
    assert '&' !in first;
    if |pairs| == 1 {
      SplitWithout(first, '&');
    } else {
      SplitAt(first, '&', Serialize(pairs[1..]));
      SplitSerialize(pairs[1..]);
    }
  }

  lemma {:induction false} ParsePairTexts(pairs: seq<Pair>)
    ensures ParseParts(seq(|pairs|, i requires 0 <= i < |pairs| => PairText(pairs[i]))) == Some(pairs)
  {
    var parts := seq(|pairs|, i requires 0 <= i < |pairs| => PairText(pairs[i]));
    if pairs != [] {
      assert parts[0] == PairText(pairs[0]);
      assert '=' in parts[0];
      ParsePairText(pairs[0]);
      assert parts[1..] == seq(|pairs[1..]|, i requires 0 <= i < |pairs[1..]| => PairText(pairs[1..][i]));
      ParsePairTexts(pairs[1..]);
      assert [pairs[0]] + pairs[1..] == pairs;
    }
  }

  /** Parsing a serialization gives back exactly the pairs, in order, duplicates and empty
      names or values included. */
  lemma ParseSerialize(pairs: seq<Pair>)
    ensures Parse(Serialize(pairs)) == Some(pairs)
  {
    if pairs != [] {
      SplitSerialize(pairs);
      ParsePairTexts(pairs);
    }
  }

  /** Hence serialization is injective: distinct pair lists give distinct query strings. */
  lemma SerializeInjective(p: seq<Pair>, q: seq<Pair>)
    requires Serialize(p) == Serialize(q)
    ensures p == q
  {
    ParseSerialize(p);
    ParseSerialize(q);
  }
}
