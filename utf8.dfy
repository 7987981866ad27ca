/** Strict UTF-8 decoding as Python's `bytes.decode("utf-8")` performs it:
    the well-formed byte sequences of RFC 3629, section 4 (no overlong forms,
    no surrogates, nothing above U+10FFFF). */
module Utf8 {
  import opened Primitives

  predicate IsTail(b: byte) { 0x80 <= b <= 0xBF }

  /** Length of the well-formed character encoding at the head of `bs`,
      or 0 when `bs` is empty or does not start with one. */
  function HeadLength(bs: seq<byte>): (n: nat)
    ensures n <= 4 && n <= |bs|
    ensures |bs| > 0 && bs[0] <= 0x7F ==> n == 1
  {
    if |bs| == 0 then 0
    else if bs[0] <= 0x7F then 1
    else if 0xC2 <= bs[0] <= 0xDF then
      if |bs| >= 2 && IsTail(bs[1]) then 2 else 0
    else if bs[0] == 0xE0 then
      if |bs| >= 3 && 0xA0 <= bs[1] <= 0xBF && IsTail(bs[2]) then 3 else 0
    else if 0xE1 <= bs[0] <= 0xEC || 0xEE <= bs[0] <= 0xEF then
      if |bs| >= 3 && IsTail(bs[1]) && IsTail(bs[2]) then 3 else 0
    else if bs[0] == 0xED then
      if |bs| >= 3 && 0x80 <= bs[1] <= 0x9F && IsTail(bs[2]) then 3 else 0
    else if bs[0] == 0xF0 then
      if |bs| >= 4 && 0x90 <= bs[1] <= 0xBF && IsTail(bs[2]) && IsTail(bs[3]) then 4 else 0
    else if 0xF1 <= bs[0] <= 0xF3 then
      if |bs| >= 4 && IsTail(bs[1]) && IsTail(bs[2]) && IsTail(bs[3]) then 4 else 0
    else if bs[0] == 0xF4 then
      if |bs| >= 4 && 0x80 <= bs[1] <= 0x8F && IsTail(bs[2]) && IsTail(bs[3]) then 4 else 0
    else 0
  }

  predicate IsScalarValue(cp: int) {
    0 <= cp < 0xD800 || 0xE000 <= cp < 0x11_0000
  }

  /** The code point carried by the well-formed encoding at the head of `bs`. */
  function HeadCodePoint(bs: seq<byte>): (cp: int)
    requires HeadLength(bs) > 0
    ensures IsScalarValue(cp)
  {
    var n := HeadLength(bs);
    if n == 1 then bs[0] as int
    else if n == 2 then (bs[0] as int - 0xC0) * 0x40 + (bs[1] as int - 0x80)
    else if n == 3 then
      (bs[0] as int - 0xE0) * 0x1000 + (bs[1] as int - 0x80) * 0x40 + (bs[2] as int - 0x80)
    else
      (bs[0] as int - 0xF0) * 0x4_0000 + (bs[1] as int - 0x80) * 0x1000
        + (bs[2] as int - 0x80) * 0x40 + (bs[3] as int - 0x80)
  }

  /** `bs.decode("utf-8")`: the text, or None where Python raises UnicodeDecodeError. */
  function Decode(bs: seq<byte>): Option<string>
    decreases |bs|
  {
    if bs == [] then Some([])
    else
      var n := HeadLength(bs);
      if n == 0 then None
      else
        match Decode(bs[n..])
        case None => None
        case Some(rest) => Some([HeadCodePoint(bs) as char] + rest)
  }

  /** The encoding of one character, shortest form. */
  function EncodeChar(c: char): (bs: seq<byte>)
    ensures 1 <= |bs| <= 4
  {
    var cp := c as int;
    if cp < 0x80 then [cp as byte]
    else if cp < 0x800 then [(0xC0 + cp / 0x40) as byte, (0x80 + cp % 0x40) as byte]
    else if cp < 0x1_0000 then
      [(0xE0 + cp / 0x1000) as byte, (0x80 + cp / 0x40 % 0x40) as byte, (0x80 + cp % 0x40) as byte]
    else
      [(0xF0 + cp / 0x4_0000) as byte, (0x80 + cp / 0x1000 % 0x40) as byte,
       (0x80 + cp / 0x40 % 0x40) as byte, (0x80 + cp % 0x40) as byte]
  }

  /** `s.encode("utf-8")`. */
  function Encode(s: string): seq<byte>
  {
    if s == [] then [] else EncodeChar(s[0]) + Encode(s[1..])
  }

  /** The encoding of a character is recognised, in full, as one well-formed
      head, and carries the character's code point. */
  lemma EncodeCharIsHead(c: char, rest: seq<byte>)
    ensures HeadLength(EncodeChar(c) + rest) == |EncodeChar(c)|
    ensures HeadCodePoint(EncodeChar(c) + rest) == c as int
  {
    var cp := c as int;
    if cp < 0x80 {
    } else if cp < 0x800 {
      TwoByteHead(c, rest);
    } else if cp < 0x1_0000 {
      ThreeByteHead(c, rest);
    } else {
      FourByteHead(c, rest);
    }
  }

  lemma TwoByteHead(c: char, rest: seq<byte>)
    requires 0x80 <= c as int < 0x800
    ensures HeadLength(EncodeChar(c) + rest) == 2
    ensures HeadCodePoint(EncodeChar(c) + rest) == c as int
  {
    var cp := c as int;
    var bs := EncodeChar(c) + rest;
    var a, d := cp / 0x40, cp % 0x40;
    assert cp == a * 0x40 + d && 2 <= a < 0x20;
    assert bs[0] as int == 0xC0 + a && bs[1] as int == 0x80 + d;
  }

  lemma ThreeByteHead(c: char, rest: seq<byte>)
    requires 0x800 <= c as int < 0x1_0000
    ensures HeadLength(EncodeChar(c) + rest) == 3
    ensures HeadCodePoint(EncodeChar(c) + rest) == c as int
  {
    var cp := c as int;
    var bs := EncodeChar(c) + rest;
    var q, d := cp / 0x40, cp % 0x40;
    var a, b := q / 0x40, q % 0x40;
    Digits3(cp);
    assert bs[0] as int == 0xE0 + a && bs[1] as int == 0x80 + b && bs[2] as int == 0x80 + d;
  }

  lemma FourByteHead(c: char, rest: seq<byte>)
    requires 0x1_0000 <= c as int
    ensures HeadLength(EncodeChar(c) + rest) == 4
    ensures HeadCodePoint(EncodeChar(c) + rest) == c as int
  {
    var cp := c as int;
    var bs := EncodeChar(c) + rest;
    var q, d := cp / 0x40, cp % 0x40;
    var r, b := q / 0x40, q % 0x40;
    var a, e := r / 0x40, r % 0x40;
    Digits4(cp);
    assert bs[0] as int == 0xF0 + a && bs[1] as int == 0x80 + e;
    assert bs[2] as int == 0x80 + b && bs[3] as int == 0x80 + d;
  }

  /** The base-64 digits of a code point below U+10000. */
  lemma Digits3(cp: int)
    requires 0x800 <= cp < 0x1_0000
    ensures cp / 0x1000 == cp / 0x40 / 0x40
    ensures cp == (cp / 0x40 / 0x40) * 0x1000 + (cp / 0x40 % 0x40) * 0x40 + cp % 0x40
  {
  }

  /** The base-64 digits of a supplementary code point. */
  lemma Digits4(cp: int)
    requires 0x1_0000 <= cp < 0x11_0000
    ensures cp / 0x4_0000 == cp / 0x40 / 0x40 / 0x40
    ensures cp / 0x1000 % 0x40 == cp / 0x40 / 0x40 % 0x40
    ensures cp == (cp / 0x40 / 0x40 / 0x40) * 0x4_0000 + (cp / 0x40 / 0x40 % 0x40) * 0x1000
                  + (cp / 0x40 % 0x40) * 0x40 + cp % 0x40
  {
  }

  /** A well-formed head is the shortest-form encoding of its code point. */
  lemma HeadIsEncodeChar(bs: seq<byte>)
    requires HeadLength(bs) > 0
    ensures EncodeChar(HeadCodePoint(bs) as char) == bs[..HeadLength(bs)]
  {
    var n := HeadLength(bs);
    if n == 2 {
      Head2(bs);
    } else if n == 3 {
      Head3(bs);
    } else if n == 4 {
      Head4(bs);
    }
  }

  lemma Head2(bs: seq<byte>)
    requires HeadLength(bs) == 2
    ensures EncodeChar(HeadCodePoint(bs) as char) == bs[..2]
  {
    var a, d := bs[0] as int - 0xC0, bs[1] as int - 0x80;
    Split2(a, d);
  }

  lemma Head3(bs: seq<byte>)
    requires HeadLength(bs) == 3
    ensures EncodeChar(HeadCodePoint(bs) as char) == bs[..3]
  {
    var a, b, d := bs[0] as int - 0xE0, bs[1] as int - 0x80, bs[2] as int - 0x80;
    Split3(a, b, d);
  }

  lemma Head4(bs: seq<byte>)
    requires HeadLength(bs) == 4
    ensures EncodeChar(HeadCodePoint(bs) as char) == bs[..4]
  {
    var a, e, b, d := bs[0] as int - 0xF0, bs[1] as int - 0x80, bs[2] as int - 0x80, bs[3] as int - 0x80;
    Split4(a, e, b, d);
  }

  lemma Split2(a: int, d: int)
    requires 0 <= a < 0x20 && 0 <= d < 0x40
    ensures (a * 0x40 + d) / 0x40 == a && (a * 0x40 + d) % 0x40 == d
  {
  }

  lemma Split3(a: int, b: int, d: int)
    requires 0 <= a < 0x10 && 0 <= b < 0x40 && 0 <= d < 0x40
    ensures var cp := a * 0x1000 + b * 0x40 + d;
      cp / 0x1000 == a && cp / 0x40 % 0x40 == b && cp % 0x40 == d
  {
    var cp := a * 0x1000 + b * 0x40 + d;
    assert cp / 0x40 == a * 0x40 + b;
  }

  lemma Split4(a: int, e: int, b: int, d: int)
    requires 0 <= a < 8 && 0 <= e < 0x40 && 0 <= b < 0x40 && 0 <= d < 0x40
    ensures var cp := a * 0x4_0000 + e * 0x1000 + b * 0x40 + d;
      cp / 0x4_0000 == a && cp / 0x1000 % 0x40 == e && cp / 0x40 % 0x40 == b && cp % 0x40 == d
  {
    var cp := a * 0x4_0000 + e * 0x1000 + b * 0x40 + d;
    assert cp / 0x40 == a * 0x1000 + e * 0x40 + b;
    assert cp / 0x1000 == a * 0x40 + e;
  }

  /** Decoding what was encoded gives the text back. */
  lemma {:induction false} DecodeEncode(s: string)
    ensures Decode(Encode(s)) == Some(s)
  {
    if s != [] {
      var e := EncodeChar(s[0]);
      EncodeCharIsHead(s[0], Encode(s[1..]));
      assert (e + Encode(s[1..]))[|e|..] == Encode(s[1..]);
      DecodeEncode(s[1..]);
      assert [s[0]] + s[1..] == s;
    }
  }

  /** Decoding is strict: bytes decode to a text exactly when they are that
      text's encoding, so no two byte strings decode to the same text. */
  lemma {:induction false} DecodeIffEncode(bs: seq<byte>, s: string)
    ensures Decode(bs) == Some(s) <==> Encode(s) == bs
  {
    if Encode(s) == bs {
      DecodeEncode(s);
    }
    if Decode(bs) == Some(s) && bs != [] {
      var n := HeadLength(bs);
      HeadIsEncodeChar(bs);
      DecodeIffEncode(bs[n..], s[1..]);
      assert bs == bs[..n] + bs[n..];
    }
  }
}
