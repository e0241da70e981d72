/** UTF-8, the encoding the form-urlencoded serializer applies to every name and value
    before percent-encoding it (section 5.2 of the WHATWG URL Standard). */
module Utf8 {
  import opened Wrappers

  type Byte = b: int | 0 <= b < 256

  predicate IsContinuation(b: Byte)
  {
    0x80 <= b < 0xC0
  }

  /** The one to four bytes UTF-8 writes for a Unicode scalar value. */
  function EncodeScalar(c: char): (bs: seq<Byte>)
    ensures 1 <= |bs| <= 4
    ensures |bs| == 1 <==> c as int < 0x80
    ensures |bs| == 1 ==> bs[0] == c as int
    ensures forall i :: 1 <= i < |bs| ==> IsContinuation(bs[i])
  {
    var cp := c as int;
    if cp < 0x80 then [cp]
    else if cp < 0x800 then [0xC0 + cp / 64, 0x80 + cp % 64]
    else if cp < 0x10000 then [0xE0 + cp / 4096, 0x80 + (cp / 64) % 64, 0x80 + cp % 64]
    else [0xF0 + cp / 262144, 0x80 + (cp / 4096) % 64, 0x80 + (cp / 64) % 64, 0x80 + cp % 64]
  }

  /** Reads the scalar value at the front of `bs` and how many bytes it took. Truncated
      sequences, stray continuation bytes, overlong forms, surrogates and values past
      U+10FFFF are rejected. */
  function DecodeScalar(bs: seq<Byte>): (r: Option<(char, nat)>)
    ensures r.Some? ==> 1 <= r.value.1 <= |bs|
  {
    if |bs| == 0 then None
    else
      var b0: int := bs[0];
      if b0 < 0x80 then Some((b0 as char, 1))
      else if 0xC2 <= b0 < 0xE0 then
        if |bs| >= 2 && IsContinuation(bs[1]) then
          Some((((b0 - 0xC0) * 64 + (bs[1] as int - 0x80)) as char, 2))
        else None
      else if 0xE0 <= b0 < 0xF0 then
        if |bs| >= 3 && IsContinuation(bs[1]) && IsContinuation(bs[2]) then
          var cp := (b0 - 0xE0) * 4096 + (bs[1] as int - 0x80) * 64 + (bs[2] as int - 0x80);
          if cp < 0x800 || 0xD800 <= cp < 0xE000 then None else Some((cp as char, 3))
        else None
      else if 0xF0 <= b0 < 0xF5 then
        if |bs| >= 4 && IsContinuation(bs[1]) && IsContinuation(bs[2]) && IsContinuation(bs[3]) then
          var cp := (b0 - 0xF0) * 262144 + (bs[1] as int - 0x80) * 4096 + (bs[2] as int - 0x80) * 64 + (bs[3] as int - 0x80);
          if cp < 0x10000 || cp >= 0x110000 then None else Some((cp as char, 4))
        else None
      else None
  }

  /** Decoding what `EncodeScalar` wrote recovers the scalar value and consumes exactly
      its bytes, whatever follows them. */
  lemma DecodeEncodeScalar(c: char, rest: seq<Byte>)
    ensures DecodeScalar(EncodeScalar(c) + rest) == Some((c, |EncodeScalar(c)|))
  {
    var cp := c as int;
    var bs := EncodeScalar(c) + rest;
    if cp >= 0x800 && cp < 0x10000 {
      assert cp / 64 == (cp / 4096) * 64 + (cp / 64) % 64;
    } else if cp >= 0x10000 {
      assert cp / 64 == (cp / 4096) * 64 + (cp / 64) % 64;
      assert cp / 4096 == (cp / 262144) * 64 + (cp / 4096) % 64;
    }
  }

  /** Division by 64 splits off the low six bits. */
  lemma DivMod64(q: int, r: int)
    requires 0 <= r < 64
    ensures (q * 64 + r) / 64 == q && (q * 64 + r) % 64 == r
  {
  }

  /** A two-byte sequence the decoder accepts is the encoding of its value. */
  lemma EncodeTwo(b0: int, b1: int)
    requires 0xC2 <= b0 < 0xE0 && 0x80 <= b1 < 0xC0
    ensures var cp := (b0 - 0xC0) * 64 + (b1 - 0x80);
            0x80 <= cp < 0x800 && EncodeScalar(cp as char) == [b0, b1]
  {
    DivMod64(b0 - 0xC0, b1 - 0x80);
  }

  /** A three-byte sequence the decoder accepts is the encoding of its value. */
  lemma EncodeThree(b0: int, b1: int, b2: int)
    requires 0xE0 <= b0 < 0xF0 && 0x80 <= b1 < 0xC0 && 0x80 <= b2 < 0xC0
    requires var cp := (b0 - 0xE0) * 4096 + (b1 - 0x80) * 64 + (b2 - 0x80);
             !(cp < 0x800 || 0xD800 <= cp < 0xE000)
    ensures var cp := (b0 - 0xE0) * 4096 + (b1 - 0x80) * 64 + (b2 - 0x80);
            EncodeScalar(cp as char) == [b0, b1, b2]
  {
    var hi := (b0 - 0xE0) * 64 + (b1 - 0x80);
    var cp := hi * 64 + (b2 - 0x80);
    DivMod64(hi, b2 - 0x80);
    DivMod64(b0 - 0xE0, b1 - 0x80);
    assert cp / 4096 == (cp / 64) / 64;
  }

  /** A four-byte sequence the decoder accepts is the encoding of its value. */
  lemma EncodeFour(b0: int, b1: int, b2: int, b3: int)
    requires 0xF0 <= b0 < 0xF5 && 0x80 <= b1 < 0xC0 && 0x80 <= b2 < 0xC0 && 0x80 <= b3 < 0xC0
    requires var cp := (b0 - 0xF0) * 262144 + (b1 - 0x80) * 4096 + (b2 - 0x80) * 64 + (b3 - 0x80);
             0x10000 <= cp < 0x110000
    ensures var cp := (b0 - 0xF0) * 262144 + (b1 - 0x80) * 4096 + (b2 - 0x80) * 64 + (b3 - 0x80);
            EncodeScalar(cp as char) == [b0, b1, b2, b3]
  {
    var top := (b0 - 0xF0) * 64 + (b1 - 0x80);
    var hi := top * 64 + (b2 - 0x80);
    var cp := hi * 64 + (b3 - 0x80);
    DivMod64(hi, b3 - 0x80);
    DivMod64(top, b2 - 0x80);
    DivMod64(b0 - 0xF0, b1 - 0x80);
    assert cp / 4096 == (cp / 64) / 64;
    assert cp / 262144 == ((cp / 64) / 64) / 64;
  }

  /** Conversely, every scalar value the decoder accepts was written in exactly the bytes
      `EncodeScalar` would write: UTF-8 has one encoding per scalar value. */
  lemma EncodeDecodeScalar(bs: seq<Byte>)
    requires DecodeScalar(bs).Some?
    ensures bs[..DecodeScalar(bs).value.1] == EncodeScalar(DecodeScalar(bs).value.0)
  {
    var b0: int := bs[0];
    if 0xC2 <= b0 < 0xE0 {
      EncodeTwo(b0, bs[1]);
      assert bs[..2] == [bs[0], bs[1]];
    } else if 0xE0 <= b0 < 0xF0 {
      EncodeThree(b0, bs[1], bs[2]);
      assert bs[..3] == [bs[0], bs[1], bs[2]];
    } else if 0xF0 <= b0 < 0xF5 {
      EncodeFour(b0, bs[1], bs[2], bs[3]);
      assert bs[..4] == [bs[0], bs[1], bs[2], bs[3]];
    }
  }

  /** The UTF-8 encoding of a string: the encodings of its scalar values, in order. */
  function Encode(s: string): (bs: seq<Byte>)
    ensures |bs| >= |s|
  {
    if s == [] then [] else EncodeScalar(s[0]) + Encode(s[1..])
  }

  /** Strict UTF-8 decoding: the whole input must be well-formed. */
  function Decode(bs: seq<Byte>): (r: Option<string>)
    decreases |bs|
  {
    if bs == [] then Some("")
    else
      match DecodeScalar(bs)
      case None => None
      case Some((c, k)) =>
        match Decode(bs[k..])
        case None => None
        case Some(t) => Some([c] + t)
  }

  /** Decoding undoes encoding for every string. */
  lemma {:induction false} DecodeEncode(s: string)
    ensures Decode(Encode(s)) == Some(s)
  {
    if s != [] {
      var e := EncodeScalar(s[0]);
      DecodeEncodeScalar(s[0], Encode(s[1..]));
      assert (e + Encode(s[1..]))[|e|..] == Encode(s[1..]);
      DecodeEncode(s[1..]);
      assert [s[0]] + s[1..] == s;
    }
  }

  /** Encoding undoes decoding for every well-formed byte string. */
  lemma {:induction false} EncodeDecode(bs: seq<Byte>)
    requires Decode(bs).Some?
    ensures Encode(Decode(bs).value) == bs
    decreases |bs|
  {
    if bs != [] {
      var (c, k) := DecodeScalar(bs).value;
      EncodeDecodeScalar(bs);
      EncodeDecode(bs[k..]);
      var s := Decode(bs).value;
      assert s == [c] + Decode(bs[k..]).value;
      assert s[1..] == Decode(bs[k..]).value;
      assert bs == bs[..k] + bs[k..];
    }
  }
}
