/**
 * The JSON text Python's `json.dumps` writes for the cache-key payload: its
 * default separators (`", "` and `": "`), `sort_keys=True`, and `ensure_ascii`
 * string escaping, under which every non-printable or non-ASCII character is
 * written as `\uXXXX` (a surrogate pair above U+FFFF). The string decoder is
 * the partner showing the escaping is lossless, and the payload reader the
 * partner showing the whole text is.
 */
module Json {
  import opened Wrappers
  import opened Hex
  import opened LexOrder
  import opened Sorting

  predicate IsPrintableAscii(c: char) {
    ' ' <= c <= '~'
  }

  predicate AllPrintableAscii(s: string) {
    forall i :: 0 <= i < |s| ==> IsPrintableAscii(s[i])
  }

  lemma AllPrintableAsciiAppend(a: string, b: string)
    requires AllPrintableAscii(a) && AllPrintableAscii(b)
    ensures AllPrintableAscii(a + b)
  {
    assert forall i :: 0 <= i < |a + b| ==> (a + b)[i] == (if i < |a| then a[i] else b[i - |a|]);
  }

  /** How `ensure_ascii` writes one character. */
  function EscapeChar(c: char): (s: string)
    ensures |s| > 0 && AllPrintableAscii(s)
  {
    if c == '"' then "\\\""
    else if c == '\\' then "\\\\"
    else if c == '\n' then "\\n"
    else if c == '\r' then "\\r"
    else if c == '\t' then "\\t"
    else if c as int == 0x08 then "\\b"
    else if c as int == 0x0c then "\\f"
    else if IsPrintableAscii(c) then [c]
    else if c as int < 0x10000 then UnitEscape(c as int)
    else
      var v := c as int - 0x10000;
      AllPrintableAsciiAppend(UnitEscape(0xd800 + v / 0x400), UnitEscape(0xdc00 + v % 0x400));
      UnitEscape(0xd800 + v / 0x400) + UnitEscape(0xdc00 + v % 0x400)
  }

  /** `\uXXXX` for one UTF-16 code unit. */
  function UnitEscape(n: int): (s: string)
    requires 0 <= n < 0x10000
    ensures |s| == 6 && AllPrintableAscii(s)
  {
    "\\u" + Hex4(n)
  }

  /** The body of a JSON string literal: every character escaped in turn. */
  function EscapeString(s: string): (r: string)
    ensures AllPrintableAscii(r)
  {
    if |s| == 0 then ""
    else
      AllPrintableAsciiAppend(EscapeChar(s[0]), EscapeString(s[1..]));
      EscapeChar(s[0]) + EscapeString(s[1..])
  }

  function Prepend(c: char, r: Option<string>): Option<string> {
    match r
    case Some(t) => Some([c] + t)
    case None => None
  }

  /**
   * Decodes the body of a JSON string literal: plain characters other than
   * `"` and `\`, the two-character escapes, and `\uXXXX` escapes, where a
   * high surrogate must be followed by an escaped low surrogate.
   */
  function Unescape(s: string): Option<string>
    decreases |s|, 1
  {
    if |s| == 0 then Some("")
    else if s[0] == '"' then None
    else if s[0] != '\\' then Prepend(s[0], Unescape(s[1..]))
    else if |s| < 2 then None
    else if s[1] == 'u' then UnescapeCodeUnit(s)
    else match ShortEscape(s[1])
      case Some(c) => Prepend(c, Unescape(s[2..]))
      case None => None
  }

  /** The character a two-character escape `\e` stands for. */
  function ShortEscape(e: char): Option<char> {
    if e == '"' || e == '\\' || e == '/' then Some(e)
    else if e == 'n' then Some('\n')
    else if e == 'r' then Some('\r')
    else if e == 't' then Some('\t')
    else if e == 'b' then Some(0x08 as char)
    else if e == 'f' then Some(0x0c as char)
    else None
  }

  /** Decodes a `\uXXXX` escape (two of them for a surrogate pair) at the front of `s`. */
  function UnescapeCodeUnit(s: string): Option<string>
    requires |s| >= 2 && s[0] == '\\' && s[1] == 'u'
    decreases |s|, 0
  {
    if |s| < 6 then None
    else match ParseHex4(s[2..6])
      case None => None
      case Some(n) =>
        if n < 0xd800 || 0xe000 <= n then Prepend(n as char, Unescape(s[6..]))
        else if 0xdc00 <= n || |s| < 12 || s[6] != '\\' || s[7] != 'u' then None
        else match ParseHex4(s[8..12])
          case None => None
          case Some(m) =>
            if 0xdc00 <= m < 0xe000
            then Prepend(((n - 0xd800) * 0x400 + (m - 0xdc00) + 0x10000) as char, Unescape(s[12..]))
            else None
  }

  lemma UnescapeEscapeChar(c: char, rest: string)
    ensures Unescape(EscapeChar(c) + rest) == Prepend(c, Unescape(rest))
  {
    if c == '"' || c == '\\' || c == '\n' || c == '\r' || c == '\t'
       || c as int == 0x08 || c as int == 0x0c {
      UnescapeShortEscape(c, rest);
    } else if IsPrintableAscii(c) {
      var s := EscapeChar(c) + rest;
      assert s[1..] == rest;
    } else if c as int < 0x10000 {
      UnescapeBmpEscape(c, rest);
    } else {
      UnescapeSurrogatePair(c, rest);
    }
  }

  lemma UnescapeShortEscape(c: char, rest: string)
    requires c == '"' || c == '\\' || c == '\n' || c == '\r' || c == '\t'
             || c as int == 0x08 || c as int == 0x0c
    ensures Unescape(EscapeChar(c) + rest) == Prepend(c, Unescape(rest))
  {
    var s := EscapeChar(c) + rest;
    assert s[2..] == rest;
  }

  lemma UnescapeBmpEscape(c: char, rest: string)
    requires !IsPrintableAscii(c) && c as int < 0x10000
    requires c != '\n' && c != '\r' && c != '\t' && c as int != 0x08 && c as int != 0x0c
    ensures Unescape(EscapeChar(c) + rest) == Prepend(c, Unescape(rest))
  {
    var s := EscapeChar(c) + rest;
    assert EscapeChar(c) == UnitEscape(c as int);
    Hex4RoundTrip(c as int);
    assert s[0] == '\\' && s[1] == 'u';
    assert s[2..6] == Hex4(c as int);
    assert s[6..] == rest;
    assert Unescape(s) == UnescapeCodeUnit(s);
  }

  /** Above U+FFFF a character is written as the escapes of its UTF-16 surrogate pair. */
  lemma EscapeCharAstral(c: char) returns (hi: int, lo: int)
    requires 0x10000 <= c as int
    ensures 0xd800 <= hi < 0xdc00 && 0xdc00 <= lo < 0xe000
    ensures (hi - 0xd800) * 0x400 + (lo - 0xdc00) + 0x10000 == c as int
    ensures EscapeChar(c) == UnitEscape(hi) + UnitEscape(lo)
  {
    assert c as int != 0x08 && c as int != 0x0c && !IsPrintableAscii(c);
    assert c != '"' && c != '\\' && c != '\n' && c != '\r' && c != '\t';
    hi, lo := SurrogateSplit(c);
  }

  /** The UTF-16 surrogate pair of a code point above U+FFFF. */
  lemma SurrogateSplit(c: char) returns (hi: int, lo: int)
    requires 0x10000 <= c as int
    ensures hi == 0xd800 + (c as int - 0x10000) / 0x400
    ensures lo == 0xdc00 + (c as int - 0x10000) % 0x400
    ensures 0xd800 <= hi < 0xdc00 && 0xdc00 <= lo < 0xe000
    ensures (hi - 0xd800) * 0x400 + (lo - 0xdc00) + 0x10000 == c as int
  {
    var v := c as int - 0x10000;
    hi := 0xd800 + v / 0x400;
    lo := 0xdc00 + v % 0x400;
  }

  lemma UnescapePair(hi: int, lo: int, rest: string)
    requires 0xd800 <= hi < 0xdc00 && 0xdc00 <= lo < 0xe000
    requires 0x10000 <= (hi - 0xd800) * 0x400 + (lo - 0xdc00) + 0x10000 < 0x110000
    ensures Unescape(UnitEscape(hi) + UnitEscape(lo) + rest)
            == Prepend(((hi - 0xd800) * 0x400 + (lo - 0xdc00) + 0x10000) as char, Unescape(rest))
  {
    var s := UnitEscape(hi) + UnitEscape(lo) + rest;
    assert s[0] == '\\' && s[1] == 'u';
    assert s[2..6] == Hex4(hi);
    Hex4RoundTrip(hi);
    assert s[6] == '\\' && s[7] == 'u';
    assert s[8..12] == Hex4(lo);
    Hex4RoundTrip(lo);
    assert s[12..] == rest;
    UnescapeEscapedPair(s, hi, lo);
  }

  /** A high-surrogate escape followed by a low-surrogate escape decodes to the character they encode. */
  lemma UnescapeEscapedPair(s: string, hi: int, lo: int)
    requires |s| >= 12 && s[0] == '\\' && s[1] == 'u' && s[6] == '\\' && s[7] == 'u'
    requires ParseHex4(s[2..6]) == Some(hi) && ParseHex4(s[8..12]) == Some(lo)
    requires 0xd800 <= hi < 0xdc00 && 0xdc00 <= lo < 0xe000
    ensures Unescape(s) == Prepend(((hi - 0xd800) * 0x400 + (lo - 0xdc00) + 0x10000) as char, Unescape(s[12..]))
  {
    assert Unescape(s) == UnescapeCodeUnit(s);
  }

  lemma UnescapeSurrogatePair(c: char, rest: string)
    requires 0x10000 <= c as int
    ensures Unescape(EscapeChar(c) + rest) == Prepend(c, Unescape(rest))
  {
    var hi, lo := EscapeCharAstral(c);
    UnescapePair(hi, lo, rest);
  }

  /** Escaping loses nothing: decoding the escaped text gives the original string. */
  lemma {:induction false} EscapeRoundTrip(s: string)
    ensures Unescape(EscapeString(s)) == Some(s)
  {
    if |s| > 0 {
      var e := EscapeString(s[1..]);
      assert EscapeString(s) == EscapeChar(s[0]) + e;
      UnescapeEscapeChar(s[0], e);
      EscapeRoundTrip(s[1..]);
      assert s == [s[0]] + s[1..];
    }
  }

  /** A JSON string literal. */
  function Quote(s: string): (r: string)
    ensures AllPrintableAscii(r)
  {
    AllPrintableAsciiAppend("\"", EscapeString(s));
    AllPrintableAsciiAppend("\"" + EscapeString(s), "\"");
    "\"" + EscapeString(s) + "\""
  }

  /** The elements of a JSON array of strings, separated by `", "`. */
  function JoinQuoted(xs: seq<string>): (r: string)
    ensures AllPrintableAscii(r)
  {
    if |xs| == 0 then ""
    else if |xs| == 1 then Quote(xs[0])
    else
      AllPrintableAsciiAppend(Quote(xs[0]), ", ");
      AllPrintableAsciiAppend(Quote(xs[0]) + ", ", JoinQuoted(xs[1..]));
      Quote(xs[0]) + ", " + JoinQuoted(xs[1..])
  }

  function StringArray(xs: seq<string>): (r: string)
    ensures AllPrintableAscii(r)
  {
    AllPrintableAsciiAppend("[", JoinQuoted(xs));
    AllPrintableAsciiAppend("[" + JoinQuoted(xs), "]");
    "[" + JoinQuoted(xs) + "]"
  }

  /** The cache-key payload: a JSON object with four members. */
  datatype Payload = Payload(dateFrom: string, dateTo: string, dimensions: seq<string>, metrics: seq<string>)

  /** The payload's member names in the order `sort_keys=True` writes them. */
  const PayloadKeys: seq<string> := ["date_from", "date_to", "dimensions", "metrics"]

  /** The member names above are in Python's string order, so `sort_keys` writes them as listed. */
  lemma PayloadKeysSorted()
    ensures Sorted(PayloadKeys)
  {
    assert LexLe("date_from", "date_to") by {
      assert "date_from"[1..] == "ate_from" && "date_to"[1..] == "ate_to";
      assert "ate_from"[1..] == "te_from" && "ate_to"[1..] == "te_to";
      assert "te_from"[1..] == "e_from" && "te_to"[1..] == "e_to";
      assert "e_from"[1..] == "_from" && "e_to"[1..] == "_to";
      assert "_from"[1..] == "from" && "_to"[1..] == "to";
      assert LexLe("from", "to");
    }
    assert LexLe("date_to", "dimensions") by {
      assert "date_to"[1..] == "ate_to" && "dimensions"[1..] == "imensions";
      assert LexLe("ate_to", "imensions");
    }
    assert LexLe("dimensions", "metrics");
    assert LexLe("date_from", "dimensions") by {
      LexLeTransitive("date_from", "date_to", "dimensions");
    }
    assert LexLe("date_to", "metrics") by {
      LexLeTransitive("date_to", "dimensions", "metrics");
    }
    assert LexLe("date_from", "metrics") by {
      LexLeTransitive("date_from", "dimensions", "metrics");
    }
  }

  /**
   * `json.dumps(payload, sort_keys=True)`: the members in `PayloadKeys` order,
   * each name written as its JSON string literal (the names need no escaping).
   */
  function Dumps(p: Payload): (r: string)
    ensures AllPrintableAscii(r)
  {
    var m0 := Member(MemberName(0), Quote(p.dateFrom));
    var m1 := Member(MemberName(1), Quote(p.dateTo));
    var m2 := Member(MemberName(2), StringArray(p.dimensions));
    var m3 := Member(MemberName(3), StringArray(p.metrics));
    var ms := [m0, m1, m2, m3];
    assert forall i :: 0 <= i < |ms| ==> AllPrintableAscii(ms[i]);
    JsonObject(ms)
  }

  /** A JSON object from its members, each already written as `"name": value`. */
  function JsonObject(ms: seq<string>): (r: string)
    requires forall i :: 0 <= i < |ms| ==> AllPrintableAscii(ms[i])
    ensures AllPrintableAscii(r)
  {
    JoinMembersPrintable(ms);
    AllPrintableAsciiAppend("{", JoinMembers(ms));
    AllPrintableAsciiAppend("{" + JoinMembers(ms), "}");
    "{" + JoinMembers(ms) + "}"
  }

  /** The text that opens the `i`-th member: its quoted name and `": "`. */
  function MemberName(i: int): (s: string)
    requires 0 <= i < |PayloadKeys|
    ensures AllPrintableAscii(s)
  {
    KeysPlain(i);
    var k := PayloadKeys[i];
    AllPrintableAsciiAppend("\"", k);
    AllPrintableAsciiAppend("\"" + k, "\"");
    AllPrintableAsciiAppend("\"" + k + "\"", ": ");
    "\"" + k + "\"" + ": "
  }

  lemma KeysPlain(i: int)
    requires 0 <= i < |PayloadKeys|
    ensures forall j :: 0 <= j < |PayloadKeys[i]| ==> IsPlain(PayloadKeys[i][j])
  {
  }

  /** Each member opens with its name's JSON string literal: the names need no escaping. */
  lemma MemberNameIsQuotedKey(i: int)
    requires 0 <= i < |PayloadKeys|
    ensures MemberName(i) == Quote(PayloadKeys[i]) + ": "
  {
    KeysPlain(i);
    QuotePlain(PayloadKeys[i]);
  }

  lemma QuotePlain(s: string)
    requires forall i :: 0 <= i < |s| ==> IsPlain(s[i])
    ensures Quote(s) == "\"" + s + "\""
  {
    EscapePlain(s);
  }

  /** A character `ensure_ascii` writes as itself. */
  predicate IsPlain(c: char) {
    IsPrintableAscii(c) && c != '"' && c != '\\'
  }

  /** Text made of plain characters is its own escaping. */
  lemma {:induction false} EscapePlain(s: string)
    requires forall i :: 0 <= i < |s| ==> IsPlain(s[i])
    ensures EscapeString(s) == s
  {
    if |s| > 0 {
      EscapePlain(s[1..]);
      assert s == [s[0]] + s[1..];
    }
  }

  /** One object member: its name already written as `"name": `, then the value. */
  function Member(quotedName: string, value: string): (r: string)
    requires AllPrintableAscii(quotedName) && AllPrintableAscii(value)
    ensures AllPrintableAscii(r)
  {
    AllPrintableAsciiAppend(quotedName, value);
    quotedName + value
  }

  /** Object members separated by `", "`. */
  function JoinMembers(ms: seq<string>): string {
    if |ms| == 0 then ""
    else if |ms| == 1 then ms[0]
    else ms[0] + ", " + JoinMembers(ms[1..])
  }

  lemma {:induction false} JoinMembersPrintable(ms: seq<string>)
    requires forall i :: 0 <= i < |ms| ==> AllPrintableAscii(ms[i])
    ensures AllPrintableAscii(JoinMembers(ms))
  {
    if |ms| > 1 {
      JoinMembersPrintable(ms[1..]);
      AllPrintableAsciiAppend(ms[0], ", ");
      AllPrintableAsciiAppend(ms[0] + ", ", JoinMembers(ms[1..]));
    }
  }

  // ---------------------------------------------------------------------
  // Reading the text back: the serialised payload determines the payload.

  function Plus(k: nat, r: Option<nat>): Option<nat> {
    match r
    case Some(n) => Some(k + n)
    case None => None
  }

  lemma PlusPlus(a: nat, b: nat, r: Option<nat>)
    ensures Plus(a, Plus(b, r)) == Plus(a + b, r)
    ensures Plus(0, r) == r
  {
  }

  /**
   * The length of a string literal's body at the front of `t`: the characters
   * before the closing `"`, stepping over each backslash and the character it
   * escapes.
   */
  function BodyLength(t: string): (r: Option<nat>)
    ensures r.Some? ==> r.value < |t| && t[r.value] == '"'
  {
    if |t| == 0 then None
    else if t[0] == '"' then Some(0)
    else if t[0] == '\\' then (if |t| < 2 then None else Plus(2, BodyLength(t[2..])))
    else Plus(1, BodyLength(t[1..]))
  }

  /** A JSON string literal at the front of `t`: its decoded value and the text after it. */
  function ParseString(t: string): (r: Option<(string, string)>)
    ensures r.Some? ==> |r.value.1| < |t|
  {
    if |t| == 0 || t[0] != '"' then None
    else match BodyLength(t[1..])
      case None => None
      case Some(n) =>
        match Unescape(t[1..n + 1])
        case None => None
        case Some(v) => Some((v, t[n + 2..]))
  }

  /** A JSON array of string literals at the front of `t`, with the text after it. */
  function ParseArray(t: string): Option<(seq<string>, string)> {
    if |t| > 1 && t[0] == '[' && t[1] == ']' then Some(([], t[2..]))
    else if |t| > 0 && t[0] == '[' then ParseElements(t[1..])
    else None
  }

  /** Array elements up to and including the closing `]`, separated by `", "`. */
  function ParseElements(t: string): Option<(seq<string>, string)>
    decreases |t|
  {
    match ParseString(t)
    case None => None
    case Some((x, r)) =>
      if |r| > 0 && r[0] == ']' then Some(([x], r[1..]))
      else if |r| > 1 && r[0] == ',' && r[1] == ' ' then
        match ParseElements(r[2..])
        case None => None
        case Some((xs, r')) => Some(([x] + xs, r'))
      else None
  }

  /** The text after a fixed prefix `lit`, if `t` starts with it. */
  function Expect(lit: string, t: string): (r: Option<string>)
    ensures r.Some? ==> t == lit + r.value
  {
    if lit <= t then Some(t[|lit|..]) else None
  }

  /** Reads the text `Dumps` writes back into the payload; `None` for any other text. */
  function ParsePayload(t: string): Option<Payload> {
    match Expect("{" + MemberName(0), t)
    case None => None
    case Some(t0) =>
      match ParseString(t0)
      case None => None
      case Some((dateFrom, t1)) =>
        match Expect(", " + MemberName(1), t1)
        case None => None
        case Some(t2) =>
          match ParseString(t2)
          case None => None
          case Some((dateTo, t3)) =>
            match Expect(", " + MemberName(2), t3)
            case None => None
            case Some(t4) =>
              match ParseArray(t4)
              case None => None
              case Some((dimensions, t5)) =>
                match Expect(", " + MemberName(3), t5)
                case None => None
                case Some(t6) =>
                  match ParseArray(t6)
                  case None => None
                  case Some((metrics, t7)) =>
                    if t7 == "}" then Some(Payload(dateFrom, dateTo, dimensions, metrics)) else None
  }

  lemma ExpectPrefix(lit: string, rest: string)
    ensures Expect(lit, lit + rest) == Some(rest)
  {
    assert (lit + rest)[|lit|..] == rest;
  }

  /** Plain characters are stepped over one by one. */
  lemma {:induction false} BodyLengthPlain(p: string, t: string)
    requires forall i :: 0 <= i < |p| ==> IsPlain(p[i])
    ensures BodyLength(p + t) == Plus(|p|, BodyLength(t))
  {
    if |p| > 0 {
      BodyLengthPlain(p[1..], t);
      assert (p + t)[0] == p[0] && (p + t)[1..] == p[1..] + t;
      assert BodyLength(p + t) == Plus(1, BodyLength(p[1..] + t));
      PlusPlus(1, |p| - 1, BodyLength(t));
    } else {
      assert p + t == t;
      PlusPlus(0, 0, BodyLength(t));
    }
  }

  /** A `\uXXXX` escape is six characters of the body. */
  lemma BodyLengthUnit(n: int, t: string)
    requires 0 <= n < 0x10000
    ensures BodyLength(UnitEscape(n) + t) == Plus(6, BodyLength(t))
  {
    var u := UnitEscape(n) + t;
    assert u[0] == '\\' && u[1] == 'u';
    assert u[2..] == Hex4(n) + t;
    BodyLengthPlain(Hex4(n), t);
    PlusPlus(2, 4, BodyLength(t));
  }

  /** The escaping of one character is stepped over whole. */
  lemma BodyLengthEscapeChar(c: char, t: string)
    ensures BodyLength(EscapeChar(c) + t) == Plus(|EscapeChar(c)|, BodyLength(t))
  {
    if c == '"' || c == '\\' || c == '\n' || c == '\r' || c == '\t' || c as int == 0x08 || c as int == 0x0c {
      BodyLengthShortEscape(c, t);
    } else if IsPrintableAscii(c) {
      var u := EscapeChar(c) + t;
      assert u[0] == c && u[1..] == t;
    } else if c as int < 0x10000 {
      assert EscapeChar(c) == UnitEscape(c as int);
      BodyLengthUnit(c as int, t);
    } else {
      var hi, lo := EscapeCharAstral(c);
      BodyLengthPair(hi, lo, t);
    }
  }

  lemma BodyLengthShortEscape(c: char, t: string)
    requires c == '"' || c == '\\' || c == '\n' || c == '\r' || c == '\t' || c as int == 0x08 || c as int == 0x0c
    ensures BodyLength(EscapeChar(c) + t) == Plus(|EscapeChar(c)|, BodyLength(t))
  {
    var u := EscapeChar(c) + t;
    assert |EscapeChar(c)| == 2 && EscapeChar(c)[0] == '\\';
    assert u[0] == '\\' && u[2..] == t;
  }

  lemma BodyLengthPair(hi: int, lo: int, t: string)
    requires 0 <= hi < 0x10000 && 0 <= lo < 0x10000
    ensures BodyLength(UnitEscape(hi) + UnitEscape(lo) + t) == Plus(12, BodyLength(t))
  {
    assert UnitEscape(hi) + UnitEscape(lo) + t == UnitEscape(hi) + (UnitEscape(lo) + t);
    BodyLengthUnit(lo, t);
    BodyLengthUnit(hi, UnitEscape(lo) + t);
    PlusPlus(6, 6, BodyLength(t));
  }

  lemma AppendAssoc(a: string, b: string, c: string)
    ensures (a + b) + c == a + (b + c)
  {
  }

  lemma BodyLengthConcat(e: string, t: string, rest: string)
    requires BodyLength(e + (t + rest)) == Plus(|e|, BodyLength(t + rest))
    requires BodyLength(t + rest) == Plus(|t|, BodyLength(rest))
    ensures BodyLength((e + t) + rest) == Plus(|e + t|, BodyLength(rest))
  {
    AppendAssoc(e, t, rest);
    PlusPlus(|e|, |t|, BodyLength(rest));
  }

  /** The body of an escaped string ends exactly at the next `"`. */
  lemma {:induction false} BodyLengthEscaped(s: string, rest: string)
    ensures BodyLength(EscapeString(s) + rest) == Plus(|EscapeString(s)|, BodyLength(rest))
  {
    if |s| > 0 {
      var e, t := EscapeChar(s[0]), EscapeString(s[1..]);
      assert EscapeString(s) == e + t;
      BodyLengthEscapeChar(s[0], t + rest);
      BodyLengthEscaped(s[1..], rest);
      BodyLengthConcat(e, t, rest);
    } else {
      assert EscapeString(s) + rest == rest;
      PlusPlus(0, 0, BodyLength(rest));
    }
  }

  /** A string literal reads back as its value, whatever follows it. */
  lemma ParseQuoted(s: string, rest: string)
    ensures ParseString(Quote(s) + rest) == Some((s, rest))
  {
    var e := EscapeString(s);
    BodyLengthEscaped(s, "\"" + rest);
    PlusPlus(|e|, 0, Some(0));
    EscapeRoundTrip(s);
    ParseLiteral(e, s, rest);
  }

  /** A literal whose body ends at the first `"` and decodes to `v` reads back as `v`. */
  lemma ParseLiteral(e: string, v: string, rest: string)
    requires BodyLength(e + ("\"" + rest)) == Some(|e|)
    requires Unescape(e) == Some(v)
    ensures ParseString("\"" + e + "\"" + rest) == Some((v, rest))
  {
    var u := e + ("\"" + rest);
    var t := "\"" + u;
    AppendAssoc("\"" + e, "\"", rest);
    AppendAssoc("\"", e, "\"" + rest);
    assert t[1..] == u;
    assert u[..|e|] == e && u[|e| + 1..] == rest;
  }

  lemma {:induction false} ParseJoined(xs: seq<string>, rest: string)
    requires |xs| >= 1
    ensures ParseElements(JoinQuoted(xs) + "]" + rest) == Some((xs, rest))
  {
    if |xs| == 1 {
      ParseJoinedOne(xs, rest);
    } else {
      ParseJoined(xs[1..], rest);
      ParseJoinedMore(xs, rest);
    }
  }

  lemma ParseJoinedOne(xs: seq<string>, rest: string)
    requires |xs| == 1
    ensures ParseElements(JoinQuoted(xs) + "]" + rest) == Some((xs, rest))
  {
    var q := Quote(xs[0]);
    assert JoinQuoted(xs) == q;
    AppendAssoc(q, "]", rest);
    ParseLastElement(xs[0], rest);
    assert xs == [xs[0]];
  }

  lemma ParseJoinedMore(xs: seq<string>, rest: string)
    requires |xs| > 1
    requires ParseElements(JoinQuoted(xs[1..]) + "]" + rest) == Some((xs[1..], rest))
    ensures ParseElements(JoinQuoted(xs) + "]" + rest) == Some((xs, rest))
  {
    JoinQuotedCons(xs, rest);
    ParseNextElement(xs[0], xs[1..], JoinQuoted(xs[1..]) + "]" + rest, rest);
    assert xs == [xs[0]] + xs[1..];
  }

  lemma JoinQuotedCons(xs: seq<string>, rest: string)
    requires |xs| > 1
    ensures JoinQuoted(xs) + "]" + rest == Quote(xs[0]) + (", " + (JoinQuoted(xs[1..]) + "]" + rest))
  {
    var q, j := Quote(xs[0]), JoinQuoted(xs[1..]);
    assert JoinQuoted(xs) == q + ", " + j;
    RegroupCons(q, j, rest);
  }

  lemma RegroupCons(q: string, j: string, rest: string)
    ensures q + ", " + j + "]" + rest == q + (", " + (j + "]" + rest))
  {
    AppendAssoc(q + ", ", j, "]");
    AppendAssoc(q + ", ", j + "]", rest);
    AppendAssoc(q, ", ", j + "]" + rest);
  }

  lemma ParseLastElement(x: string, rest: string)
    ensures ParseElements(Quote(x) + ("]" + rest)) == Some(([x], rest))
  {
    var r := "]" + rest;
    ParseQuoted(x, r);
    assert r[0] == ']' && r[1..] == rest;
  }

  lemma ParseNextElement(x: string, xs: seq<string>, tail: string, rest: string)
    requires ParseElements(tail) == Some((xs, rest))
    ensures ParseElements(Quote(x) + (", " + tail)) == Some(([x] + xs, rest))
  {
    var r := ", " + tail;
    ParseQuoted(x, r);
    assert r[0] == ',' && r[1] == ' ' && r[2..] == tail;
  }

  /** An array of string literals reads back as its elements, whatever follows it. */
  lemma ParseStringArray(xs: seq<string>, rest: string)
    ensures ParseArray(StringArray(xs) + rest) == Some((xs, rest))
  {
    var t := StringArray(xs) + rest;
    if |xs| == 0 {
      assert t == "[]" + rest;
      assert t[0] == '[' && t[1] == ']' && t[2..] == rest;
    } else {
      assert JoinQuoted(xs) == Quote(xs[0]) + (if |xs| == 1 then "" else ", " + JoinQuoted(xs[1..]));
      assert t[0] == '[' && t[1] == '"';
      assert t[1..] == JoinQuoted(xs) + "]" + rest;
      ParseJoined(xs, rest);
    }
  }

  /** Four members joined into an object, regrouped so that each piece is followed by the rest of the text. */
  lemma ObjectLayout(n0: string, v0: string, n1: string, v1: string, n2: string, v2: string, n3: string, v3: string)
    ensures "{" + JoinMembers([n0 + v0, n1 + v1, n2 + v2, n3 + v3]) + "}"
            == ("{" + n0) + (v0 + ((", " + n1) + (v1 + ((", " + n2) + (v2 + ((", " + n3) + (v3 + "}")))))))
  {
    var ms := [n0 + v0, n1 + v1, n2 + v2, n3 + v3];
    assert ms[1..] == [n1 + v1, n2 + v2, n3 + v3] && ms[1..][1..] == [n2 + v2, n3 + v3] && ms[1..][1..][1..] == [n3 + v3];
    assert JoinMembers(ms[1..][1..][1..]) == n3 + v3;
    assert JoinMembers(ms[1..][1..]) == (n2 + v2) + ", " + JoinMembers(ms[1..][1..][1..]);
    assert JoinMembers(ms[1..]) == (n1 + v1) + ", " + JoinMembers(ms[1..][1..]);
    assert JoinMembers(ms) == (n0 + v0) + ", " + ((n1 + v1) + ", " + ((n2 + v2) + ", " + (n3 + v3)));
  }

  /** `Dumps` spelled out member by member. */
  lemma DumpsLayout(p: Payload)
    ensures Dumps(p) == ("{" + MemberName(0)) + (Quote(p.dateFrom) + ((", " + MemberName(1)) + (Quote(p.dateTo)
                        + ((", " + MemberName(2)) + (StringArray(p.dimensions)
                        + ((", " + MemberName(3)) + (StringArray(p.metrics) + "}")))))))
  {
    ObjectLayout(MemberName(0), Quote(p.dateFrom), MemberName(1), Quote(p.dateTo),
                 MemberName(2), StringArray(p.dimensions), MemberName(3), StringArray(p.metrics));
  }

  /** The serialised payload reads back as the payload. */
  lemma DumpsRoundTrip(p: Payload)
    ensures ParsePayload(Dumps(p)) == Some(p)
  {
    var a := StringArray(p.metrics) + "}";
    var b := (", " + MemberName(3)) + a;
    var c := StringArray(p.dimensions) + b;
    var d := (", " + MemberName(2)) + c;
    var e := Quote(p.dateTo) + d;
    var f := (", " + MemberName(1)) + e;
    var g := Quote(p.dateFrom) + f;
    DumpsLayout(p);
    assert Dumps(p) == ("{" + MemberName(0)) + g;
    ExpectPrefix("{" + MemberName(0), g);
    ParseQuoted(p.dateFrom, f);
    ExpectPrefix(", " + MemberName(1), e);
    ParseQuoted(p.dateTo, d);
    ExpectPrefix(", " + MemberName(2), c);
    ParseStringArray(p.dimensions, b);
    ExpectPrefix(", " + MemberName(3), a);
    ParseStringArray(p.metrics, "}");
  }

  /** Different payloads serialise to different text. */
  lemma DumpsInjective(p: Payload, q: Payload)
    ensures Dumps(p) == Dumps(q) ==> p == q
  {
    DumpsRoundTrip(p);
    DumpsRoundTrip(q);
  }
}
