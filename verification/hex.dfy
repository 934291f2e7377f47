/**
 * Lower-case hexadecimal text, as written by `hashlib`'s `hexdigest()` and by
 * the `\uXXXX` escapes of Python's `json` module, with its decoder.
 */
module Hex {
  import opened Wrappers

  type byte = x: int | 0 <= x < 256

  const Digits: string := "0123456789abcdef"

  predicate IsHexChar(c: char) {
    ('0' <= c <= '9') || ('a' <= c <= 'f')
  }

  function HexChar(n: int): (c: char)
    requires 0 <= n < 16
    ensures IsHexChar(c)
  {
    Digits[n]
  }

  /** The value of a lower-case hex digit; `None` for any other character. */
  function HexValue(c: char): (r: Option<int>)
    ensures r.Some? <==> IsHexChar(c)
    ensures r.Some? ==> 0 <= r.value < 16
  {
    if '0' <= c <= '9' then Some(c as int - '0' as int)
    else if 'a' <= c <= 'f' then Some(c as int - 'a' as int + 10)
    else None
  }

  lemma HexValueOfHexChar(n: int)
    requires 0 <= n < 16
    ensures HexValue(HexChar(n)) == Some(n)
  {
  }

  /** The two hex digits of one byte, high nibble first. */
  function ByteHex(b: byte): (s: string)
    ensures |s| == 2 && IsHexChar(s[0]) && IsHexChar(s[1])
  {
    [HexChar(b / 16), HexChar(b % 16)]
  }

  /** `hexdigest()`: two lower-case hex digits per byte, in order. */
  function HexDigest(bs: seq<byte>): (s: string)
    ensures |s| == 2 * |bs|
    ensures forall i :: 0 <= i < |s| ==> IsHexChar(s[i])
  {
    if |bs| == 0 then "" else ByteHex(bs[0]) + HexDigest(bs[1..])
  }

  /** Reads hex text back into bytes; `None` on odd length or a non-hex character. */
  function ParseHex(s: string): Option<seq<byte>>
    decreases |s|
  {
    if |s| == 0 then Some([])
    else if |s| == 1 then None
    else match (HexValue(s[0]), HexValue(s[1]), ParseHex(s[2..]))
      case (Some(hi), Some(lo), Some(rest)) => Some([(hi * 16 + lo) as byte] + rest)
      case _ => None
  }

  /** A digest's hex text determines the digest. */
  lemma {:induction false} HexDigestRoundTrip(bs: seq<byte>)
    ensures ParseHex(HexDigest(bs)) == Some(bs)
  {
    if |bs| > 0 {
      var h, t := ByteHex(bs[0]), HexDigest(bs[1..]);
      assert HexDigest(bs) == h + t;
      ByteHexValues(bs[0]);
      HexDigestRoundTrip(bs[1..]);
      ParseHexPrefix(h, t, bs[0] / 16, bs[0] % 16, bs[1..]);
      assert bs == [bs[0]] + bs[1..];
    }
  }

  /** Two hex digits in front of hex text add one byte in front of its value. */
  lemma ParseHexPrefix(h: string, t: string, hi: int, lo: int, rest: seq<byte>)
    requires |h| == 2 && HexValue(h[0]) == Some(hi) && HexValue(h[1]) == Some(lo)
    requires ParseHex(t) == Some(rest)
    ensures ParseHex(h + t) == Some([(hi * 16 + lo) as byte] + rest)
  {
    var s := h + t;
    assert s[0] == h[0] && s[1] == h[1] && s[2..] == t;
  }

  /** The two digits of a byte read back as its high and low nibble. */
  lemma ByteHexValues(b: byte)
    ensures HexValue(ByteHex(b)[0]) == Some(b / 16)
    ensures HexValue(ByteHex(b)[1]) == Some(b % 16)
    ensures (b / 16 * 16 + b % 16) as byte == b
  {
    HexValueOfHexChar(b / 16);
    HexValueOfHexChar(b % 16);
  }

  /** Four lower-case hex digits of a 16-bit value (`'{0:04x}'.format(n)`). */
  function Hex4(n: int): (s: string)
    requires 0 <= n < 0x10000
    ensures |s| == 4 && forall i :: 0 <= i < 4 ==> IsHexChar(s[i])
  {
    [HexChar(n / 16 / 16 / 16), HexChar(n / 16 / 16 % 16), HexChar(n / 16 % 16), HexChar(n % 16)]
  }

  /** The value of four hex digits; `None` if any is not a hex digit. */
  function ParseHex4(s: string): (r: Option<int>)
    requires |s| == 4
    ensures r.Some? ==> 0 <= r.value < 0x10000
  {
    match (HexValue(s[0]), HexValue(s[1]), HexValue(s[2]), HexValue(s[3]))
    case (Some(a), Some(b), Some(c), Some(d)) => Some(((a * 16 + b) * 16 + c) * 16 + d)
    case _ => None
  }

  lemma Hex4RoundTrip(n: int)
    requires 0 <= n < 0x10000
    ensures ParseHex4(Hex4(n)) == Some(n)
  {
    var q1 := n / 16;
    var q2 := q1 / 16;
    var q3 := q2 / 16;
    HexValueOfHexChar(q3);
    HexValueOfHexChar(q2 % 16);
    HexValueOfHexChar(q1 % 16);
    HexValueOfHexChar(n % 16);
    assert n == q1 * 16 + n % 16;
    assert q1 == q2 * 16 + q1 % 16;
    assert q2 == q3 * 16 + q2 % 16;
  }
}
