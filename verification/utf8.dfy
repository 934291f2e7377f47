/**
 * `str.encode("utf-8")`: every code point written as one to four bytes, as
 * section 3 of RFC 3629 lays them out, with the matching decoder as partner.
 * A Dafny `char` is a Unicode scalar value, so surrogates never reach the
 * encoder (Python would raise on a lone surrogate under the strict handler).
 */
module Utf8 {
  import opened Wrappers
  import opened Hex

  /** The bytes of one code point: a lead byte carrying the length, then continuation bytes of six bits each. */
  function EncodeChar(c: char): (bs: seq<byte>)
    ensures 1 <= |bs| <= 4
    ensures |bs| == 1 <==> c as int < 0x80
  {
    var n := c as int;
    if n < 0x80 then [n]
    else if n < 0x800 then [0xc0 + n / 0x40, 0x80 + n % 0x40]
    else if n < 0x10000 then [0xe0 + n / 0x40 / 0x40, 0x80 + n / 0x40 % 0x40, 0x80 + n % 0x40]
    else [0xf0 + n / 0x40 / 0x40 / 0x40, 0x80 + n / 0x40 / 0x40 % 0x40, 0x80 + n / 0x40 % 0x40, 0x80 + n % 0x40]
  }

  /** `s.encode("utf-8")`. */
  function Encode(s: string): (bs: seq<byte>)
    ensures |s| <= |bs| <= 4 * |s|
  {
    if |s| == 0 then [] else EncodeChar(s[0]) + Encode(s[1..])
  }

  predicate IsContinuation(b: byte) {
    0x80 <= b < 0xc0
  }

  /** The six bits a continuation byte carries. */
  function Low6(b: byte): int {
    b as int - 0x80
  }

  /** A decoded code point and the number of bytes it took, if it is a scalar value written in its shortest form. */
  function Decoded(n: int, least: nat, len: nat): Option<(char, nat)> {
    if n < least || 0xd800 <= n < 0xe000 || 0x110000 <= n then None
    else Some((n as char, len))
  }

  /** Decodes the code point at the front of `bs`, with the number of bytes it takes. */
  function DecodeChar(bs: seq<byte>): (r: Option<(char, nat)>)
    ensures r.Some? ==> 1 <= r.value.1 <= |bs|
  {
    if |bs| == 0 then None
    else
      var b := bs[0] as int;
      if b < 0x80 then Some((b as char, 1))
      else if b < 0xc0 then None
      else if b < 0xe0 then
        if |bs| < 2 || !IsContinuation(bs[1]) then None
        else Decoded((b - 0xc0) * 0x40 + Low6(bs[1]), 0x80, 2)
      else if b < 0xf0 then
        if |bs| < 3 || !IsContinuation(bs[1]) || !IsContinuation(bs[2]) then None
        else Decoded(((b - 0xe0) * 0x40 + Low6(bs[1])) * 0x40 + Low6(bs[2]), 0x800, 3)
      else if b < 0xf8 then
        if |bs| < 4 || !IsContinuation(bs[1]) || !IsContinuation(bs[2]) || !IsContinuation(bs[3]) then None
        else Decoded((((b - 0xf0) * 0x40 + Low6(bs[1])) * 0x40 + Low6(bs[2])) * 0x40 + Low6(bs[3]), 0x10000, 4)
      else None
  }

  /** `bytes.decode("utf-8")`; `None` where Python would raise `UnicodeDecodeError`. */
  function Decode(bs: seq<byte>): Option<string>
    decreases |bs|
  {
    if |bs| == 0 then Some("")
    else match DecodeChar(bs)
      case None => None
      case Some((c, k)) =>
        match Decode(bs[k..])
        case None => None
        case Some(t) => Some([c] + t)
  }

  lemma DecodeOneByte(c: char, rest: seq<byte>)
    requires c as int < 0x80
    ensures DecodeChar(EncodeChar(c) + rest) == Some((c, 1))
  {
  }

  lemma DecodeTwoBytes(c: char, rest: seq<byte>)
    requires 0x80 <= c as int < 0x800
    ensures DecodeChar(EncodeChar(c) + rest) == Some((c, 2))
  {
    var n := c as int;
    var bs := EncodeChar(c) + rest;
    assert bs[0] == 0xc0 + n / 0x40 && bs[1] == 0x80 + n % 0x40;
    assert (bs[0] as int - 0xc0) * 0x40 + Low6(bs[1]) == n;
  }

  lemma DecodeThreeBytes(c: char, rest: seq<byte>)
    requires 0x800 <= c as int < 0x10000
    ensures DecodeChar(EncodeChar(c) + rest) == Some((c, 3))
  {
    var n := c as int;
    var q1 := n / 0x40;
    var q2 := q1 / 0x40;
    var bs := EncodeChar(c) + rest;
    assert bs[0] == 0xe0 + q2 && bs[1] == 0x80 + q1 % 0x40 && bs[2] == 0x80 + n % 0x40;
    assert q2 * 0x40 + q1 % 0x40 == q1;
    assert ((bs[0] as int - 0xe0) * 0x40 + Low6(bs[1])) * 0x40 + Low6(bs[2]) == n;
  }

  lemma DecodeFourBytes(c: char, rest: seq<byte>)
    requires 0x10000 <= c as int
    ensures DecodeChar(EncodeChar(c) + rest) == Some((c, 4))
  {
    var n := c as int;
    var q1 := n / 0x40;
    var q2 := q1 / 0x40;
    var q3 := q2 / 0x40;
    var bs := EncodeChar(c) + rest;
    assert bs[0] == 0xf0 + q3 && bs[1] == 0x80 + q2 % 0x40 && bs[2] == 0x80 + q1 % 0x40 && bs[3] == 0x80 + n % 0x40;
    assert q3 * 0x40 + q2 % 0x40 == q2;
    assert q2 * 0x40 + q1 % 0x40 == q1;
    assert (((bs[0] as int - 0xf0) * 0x40 + Low6(bs[1])) * 0x40 + Low6(bs[2])) * 0x40 + Low6(bs[3]) == n;
  }

  /** The decoder reads back exactly one encoded code point, whatever follows it. */
  lemma DecodeEncodedChar(c: char, rest: seq<byte>)
    ensures DecodeChar(EncodeChar(c) + rest) == Some((c, |EncodeChar(c)|))
  {
    if c as int < 0x80 {
      DecodeOneByte(c, rest);
    } else if c as int < 0x800 {
      DecodeTwoBytes(c, rest);
    } else if c as int < 0x10000 {
      DecodeThreeBytes(c, rest);
    } else {
      DecodeFourBytes(c, rest);
    }
  }

  /** Decoding the encoding gives back the text. */
  lemma {:induction false} RoundTrip(s: string)
    ensures Decode(Encode(s)) == Some(s)
  {
    if |s| > 0 {
      var e, t := EncodeChar(s[0]), Encode(s[1..]);
      assert Encode(s) == e + t;
      DecodeEncodedChar(s[0], t);
      assert (e + t)[|e|..] == t;
      RoundTrip(s[1..]);
      assert s == [s[0]] + s[1..];
    }
  }

  /** Different texts have different encodings. */
  lemma Injective(s: string, t: string)
    ensures Encode(s) == Encode(t) ==> s == t
  {
    RoundTrip(s);
    RoundTrip(t);
  }

  /** Text below U+0080 encodes as one byte per character, the byte being the code point. */
  lemma {:induction false} AsciiBytes(s: string)
    requires forall i :: 0 <= i < |s| ==> s[i] as int < 0x80
    ensures |Encode(s)| == |s|
    ensures forall i :: 0 <= i < |s| ==> Encode(s)[i] == s[i] as int
  {
    if |s| > 0 {
      AsciiBytes(s[1..]);
      assert Encode(s) == [s[0] as int] + Encode(s[1..]);
    }
  }
}
