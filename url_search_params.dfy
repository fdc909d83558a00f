/**
 * `URLSearchParams` as the book card and the reader page use it: `toString()` writes the
 * pairs in the application/x-www-form-urlencoded format of the WHATWG URL Standard
 * (section 5.2, "application/x-www-form-urlencoded serializing"), the constructor parses
 * a query string back (section 5.1, "application/x-www-form-urlencoded parsing"), and
 * `get(name)` returns the first value under a name.
 */
module UrlSearchParams {
  import opened Wrappers
  import opened JsStrings

  // ---------------------------------------------------------------------------
  // UTF-8

  /** A Unicode scalar value: a code point that is not a surrogate. */
  predicate IsScalar(cp: int) {
    (0 <= cp < 0xD800) || (0xE000 <= cp < 0x110000)
  }

  /** The UTF-8 bytes of a code point. */
  function Utf8(c: char): (bytes: seq<int>)
    ensures 1 <= |bytes| <= 4
    ensures forall i :: 0 <= i < |bytes| ==> 0 <= bytes[i] < 256
  {
    var cp := c as int;
    if cp < 0x80 then [cp]
    else if cp < 0x800 then [0xC0 + cp / 0x40, 0x80 + cp % 0x40]
    else if cp < 0x10000 then [0xE0 + cp / 0x1000, 0x80 + (cp / 0x40) % 0x40, 0x80 + cp % 0x40]
    else [0xF0 + cp / 0x40000, 0x80 + (cp / 0x1000) % 0x40, 0x80 + (cp / 0x40) % 0x40, 0x80 + cp % 0x40]
  }

  /** The UTF-8 bytes of a string. */
  function Utf8String(s: string): seq<int> {
    if s == "" then [] else Utf8(s[0]) + Utf8String(s[1..])
  }

  predicate Continuation(b: int) {
    0x80 <= b < 0xC0
  }

  /** The code point a well-formed UTF-8 sequence starts with, and its length in bytes;
      `None` for an ill-formed start (a stray continuation byte, an overlong form, a
      surrogate or a value past U+10FFFF). */
  function DecodeOne(bs: seq<int>): (r: Option<(char, nat)>)
    ensures r.Some? ==> 1 <= r.value.1 <= |bs|
  {
    if |bs| == 0 then None
    else
      var b0 := bs[0];
      if 0 <= b0 < 0x80 then Some((b0 as char, 1))
      else if 0xC0 <= b0 < 0xE0 && |bs| >= 2 && Continuation(bs[1]) then
        var cp := (b0 - 0xC0) * 0x40 + (bs[1] - 0x80);
        if 0x80 <= cp then Some((cp as char, 2)) else None
      else if 0xE0 <= b0 < 0xF0 && |bs| >= 3 && Continuation(bs[1]) && Continuation(bs[2]) then
        var cp := (b0 - 0xE0) * 0x1000 + (bs[1] - 0x80) * 0x40 + (bs[2] - 0x80);
        if 0x800 <= cp && IsScalar(cp) then Some((cp as char, 3)) else None
      else if 0xF0 <= b0 < 0xF8 && |bs| >= 4 && Continuation(bs[1]) && Continuation(bs[2]) && Continuation(bs[3]) then
        var cp := (b0 - 0xF0) * 0x40000 + (bs[1] - 0x80) * 0x1000 + (bs[2] - 0x80) * 0x40 + (bs[3] - 0x80);
        if 0x10000 <= cp && IsScalar(cp) then Some((cp as char, 4)) else None
      else None
  }

  /** UTF-8 decoding of a whole byte sequence; `None` when it is not well-formed. */
  function Utf8Decode(bs: seq<int>): Option<string>
    decreases |bs|
  {
    if bs == [] then Some("")
    else match DecodeOne(bs)
      case None => None
      case Some(first) =>
        match Utf8Decode(bs[first.1..])
        case None => None
        case Some(rest) => Some([first.0] + rest)
  }

  /** The bytes of a code point decode back to it, whatever follows them. */
  lemma DecodeOneUtf8(c: char, rest: seq<int>)
    ensures DecodeOne(Utf8(c) + rest) == Some((c, |Utf8(c)|))
  {
    var cp := c as int;
    if cp < 0x80 {
    } else if cp < 0x800 {
      DecodeTwo(c, rest);
    } else if cp < 0x10000 {
      DecodeThree(c, rest);
    } else {
      DecodeFour(c, rest);
    }
  }

  lemma DecodeTwo(c: char, rest: seq<int>)
    requires 0x80 <= c as int < 0x800
    ensures DecodeOne(Utf8(c) + rest) == Some((c, 2))
  {
    var cp := c as int;
    var bs := Utf8(c) + rest;
    assert bs[0] == 0xC0 + cp / 0x40 && bs[1] == 0x80 + cp % 0x40;
    assert (bs[0] - 0xC0) * 0x40 + (bs[1] - 0x80) == cp;
  }

  lemma DecodeThree(c: char, rest: seq<int>)
    requires 0x800 <= c as int < 0x10000
    ensures DecodeOne(Utf8(c) + rest) == Some((c, 3))
  {
    var cp := c as int;
    var bs := Utf8(c) + rest;
    var x, r0 := cp / 0x40, cp % 0x40;
    var y, r1 := x / 0x40, x % 0x40;
    assert cp == x * 0x40 + r0 && x == y * 0x40 + r1;
    assert cp / 0x1000 == y;
    assert bs[0] == 0xE0 + y && bs[1] == 0x80 + r1 && bs[2] == 0x80 + r0;
    assert (bs[0] - 0xE0) * 0x1000 + (bs[1] - 0x80) * 0x40 + (bs[2] - 0x80) == cp;
  }

  lemma DecodeFour(c: char, rest: seq<int>)
    requires 0x10000 <= c as int
    ensures DecodeOne(Utf8(c) + rest) == Some((c, 4))
  {
    var cp := c as int;
    var bs := Utf8(c) + rest;
    var x, r0 := cp / 0x40, cp % 0x40;
    var y, r1 := x / 0x40, x % 0x40;
    var z, r2 := y / 0x40, y % 0x40;
    assert cp == x * 0x40 + r0 && x == y * 0x40 + r1 && y == z * 0x40 + r2;
    assert cp / 0x1000 == y;
    assert cp / 0x40000 == z;
    assert bs[0] == 0xF0 + z && bs[1] == 0x80 + r2 && bs[2] == 0x80 + r1 && bs[3] == 0x80 + r0;
    assert (bs[0] - 0xF0) * 0x40000 + (bs[1] - 0x80) * 0x1000 + (bs[2] - 0x80) * 0x40 + (bs[3] - 0x80) == cp;
  }

  /** UTF-8 decoding inverts UTF-8 encoding. */
  lemma {:induction false} Utf8RoundTrip(s: string)
    ensures Utf8Decode(Utf8String(s)) == Some(s)
  {
    if s != "" {
      var head := Utf8(s[0]);
      var bs := head + Utf8String(s[1..]);
      DecodeOneUtf8(s[0], Utf8String(s[1..]));
      assert bs[|head|..] == Utf8String(s[1..]);
      Utf8RoundTrip(s[1..]);
      assert [s[0]] + s[1..] == s;
    }
  }

  // ---------------------------------------------------------------------------
  // Serializing

  /** Characters written as they are. */
  predicate Unreserved(c: char) {
    ('A' <= c <= 'Z') || ('a' <= c <= 'z') || ('0' <= c <= '9') || c == '*' || c == '-' || c == '.' || c == '_'
  }

  predicate IsUpperHex(c: char) {
    ('0' <= c <= '9') || ('A' <= c <= 'F')
  }

  function HexDigit(d: int): (c: char)
    requires 0 <= d < 16
    ensures IsUpperHex(c)
  {
    if d < 10 then ('0' as int + d) as char else ('A' as int + d - 10) as char
  }

  /** "%XY" for each byte, upper-case hexadecimal. */
  function PercentBytes(bytes: seq<int>): (s: string)
    requires forall i :: 0 <= i < |bytes| ==> 0 <= bytes[i] < 256
    ensures |s| == 3 * |bytes|
  {
    if bytes == [] then ""
    else ['%', HexDigit(bytes[0] / 16), HexDigit(bytes[0] % 16)] + PercentBytes(bytes[1..])
  }

  /** Percent-encoded bytes are written with `%` and upper-case hexadecimal digits only. */
  lemma {:induction false} PercentBytesAlphabet(bytes: seq<int>)
    requires forall i :: 0 <= i < |bytes| ==> 0 <= bytes[i] < 256
    ensures forall i :: 0 <= i < |PercentBytes(bytes)| ==> PercentBytes(bytes)[i] == '%' || IsUpperHex(PercentBytes(bytes)[i])
  {
    if bytes != [] {
      PercentBytesAlphabet(bytes[1..]);
      var s := PercentBytes(bytes);
      var tail := PercentBytes(bytes[1..]);
      assert s == ['%', HexDigit(bytes[0] / 16), HexDigit(bytes[0] % 16)] + tail;
      forall i | 0 <= i < |s| ensures s[i] == '%' || IsUpperHex(s[i]) {
        if i >= 3 { assert s[i] == tail[i - 3]; }
      }
    }
  }

  function EncodeChar(c: char): string {
    if Unreserved(c) then [c] else if c == ' ' then "+" else PercentBytes(Utf8(c))
  }

  /** The form-urlencoded byte serializer applied to the UTF-8 bytes of `s`. */
  function FormEncode(s: string): string {
    if s == "" then "" else EncodeChar(s[0]) + FormEncode(s[1..])
  }

  /** What an encoded component is made of. */
  predicate EncodedChar(c: char) {
    Unreserved(c) || c == '+' || c == '%' || IsUpperHex(c)
  }

  predicate AllEncoded(t: string) {
    forall i :: 0 <= i < |t| ==> EncodedChar(t[i])
  }

  lemma EncodedConcat(a: string, b: string)
    requires AllEncoded(a) && AllEncoded(b)
    ensures AllEncoded(a + b)
  {
    forall i | 0 <= i < |a + b| ensures EncodedChar((a + b)[i]) {
      if i >= |a| { assert (a + b)[i] == b[i - |a|]; }
    }
  }

  lemma EncodeCharAlphabet(c: char)
    ensures AllEncoded(EncodeChar(c))
  {
    if !Unreserved(c) && c != ' ' {
      PercentBytesAlphabet(Utf8(c));
    }
  }

  lemma {:induction false} FormEncodeAlphabet(s: string)
    ensures forall i :: 0 <= i < |FormEncode(s)| ==> EncodedChar(FormEncode(s)[i])
  {
    if s != "" {
      FormEncodeAlphabet(s[1..]);
      EncodeCharAlphabet(s[0]);
      EncodedConcat(EncodeChar(s[0]), FormEncode(s[1..]));
    }
  }

  /** An encoded component never holds the separators '&' and '='. */
  lemma FormEncodeNoSeparators(s: string)
    ensures '&' !in FormEncode(s) && '=' !in FormEncode(s)
  {
    FormEncodeAlphabet(s);
  }

  /** A string of unreserved characters is written as it is. */
  lemma {:induction false} FormEncodeUnreserved(s: string)
    requires forall i :: 0 <= i < |s| ==> Unreserved(s[i])
    ensures FormEncode(s) == s
  {
    if s != "" {
      FormEncodeUnreserved(s[1..]);
      assert [s[0]] + s[1..] == s;
    }
  }

  /** One `name=value` pair. */
  function Segment(pair: (string, string)): string {
    FormEncode(pair.0) + "=" + FormEncode(pair.1)
  }

  /** `toString()`: `k1=v1&k2=v2&...`. */
  function SerializeQuery(query: seq<(string, string)>): string {
    Join(seq(|query|, i requires 0 <= i < |query| => Segment(query[i])), "&")
  }

  // ---------------------------------------------------------------------------
  // Parsing

  predicate IsHex(c: char) {
    IsUpperHex(c) || ('a' <= c <= 'f')
  }

  function HexValue(c: char): (d: int)
    requires IsHex(c)
    ensures 0 <= d < 16
  {
    if '0' <= c <= '9' then c as int - '0' as int
    else if 'A' <= c <= 'F' then c as int - 'A' as int + 10
    else c as int - 'a' as int + 10
  }

  lemma HexValueOfDigit(d: int)
    requires 0 <= d < 16
    ensures HexValue(HexDigit(d)) == d
  {
  }

  /** The bytes of a name or value: UTF-8, with `+` read as a space and `%XY` (hexadecimal in
      either case) as the byte XY; a `%` without two hexadecimal digits stays as it is. */
  function PercentDecode(t: string): (bs: seq<int>)
    decreases |t|
  {
    if t == "" then []
    else if t[0] == '+' then [0x20] + PercentDecode(t[1..])
    else if t[0] == '%' && |t| >= 3 && IsHex(t[1]) && IsHex(t[2]) then
      [HexValue(t[1]) * 16 + HexValue(t[2])] + PercentDecode(t[3..])
    else Utf8(t[0]) + PercentDecode(t[1..])
  }

  /** A name or value as the parser reads it back. */
  function FormDecode(t: string): Option<string> {
    Utf8Decode(PercentDecode(t))
  }

  lemma ConcatAssoc(x: string, y: string, z: string)
    ensures (x + y) + z == x + (y + z)
  {
  }

  lemma TripleThen(a: char, b: char, c: char, tail: string)
    ensures var t := [a, b, c] + tail; t[0] == a && t[1] == b && t[2] == c && t[3..] == tail
  {
  }

  /** One `%XY` triple decodes to its byte. */
  lemma PercentDecodeTriple(b: int, tail: string)
    requires 0 <= b < 256
    ensures PercentDecode(['%', HexDigit(b / 16), HexDigit(b % 16)] + tail) == [b] + PercentDecode(tail)
  {
    TripleThen('%', HexDigit(b / 16), HexDigit(b % 16), tail);
    HexValueOfDigit(b / 16);
    HexValueOfDigit(b % 16);
  }

  /** The first `%XY` triple of an encoding decodes to the first byte. */
  lemma PercentDecodeFirst(bytes: seq<int>, rest: string)
    requires bytes != []
    requires forall i :: 0 <= i < |bytes| ==> 0 <= bytes[i] < 256
    ensures PercentDecode(PercentBytes(bytes) + rest) == [bytes[0]] + PercentDecode(PercentBytes(bytes[1..]) + rest)
  {
    var b := bytes[0];
    var triple := ['%', HexDigit(b / 16), HexDigit(b % 16)];
    assert PercentBytes(bytes) == triple + PercentBytes(bytes[1..]);
    ConcatAssoc(triple, PercentBytes(bytes[1..]), rest);
    PercentDecodeTriple(b, PercentBytes(bytes[1..]) + rest);
  }

  lemma ConsSplit(xs: seq<int>, r: seq<int>)
    requires xs != []
    ensures [xs[0]] + (xs[1..] + r) == xs + r
  {
    assert xs == [xs[0]] + xs[1..];
  }

  lemma {:induction false} PercentDecodeBytes(bytes: seq<int>, rest: string)
    requires forall i :: 0 <= i < |bytes| ==> 0 <= bytes[i] < 256
    ensures PercentDecode(PercentBytes(bytes) + rest) == bytes + PercentDecode(rest)
  {
    if bytes == [] {
      assert PercentBytes(bytes) + rest == rest;
    } else {
      PercentDecodeFirst(bytes, rest);
      PercentDecodeBytes(bytes[1..], rest);
      ConsSplit(bytes, PercentDecode(rest));
    }
  }

  lemma PercentDecodeChar(c: char, rest: string)
    ensures PercentDecode(EncodeChar(c) + rest) == Utf8(c) + PercentDecode(rest)
  {
    if Unreserved(c) || c == ' ' {
      assert (EncodeChar(c) + rest)[1..] == rest;
    } else {
      PercentDecodeBytes(Utf8(c), rest);
    }
  }

  lemma {:induction false} PercentDecodeFormEncode(s: string)
    ensures PercentDecode(FormEncode(s)) == Utf8String(s)
  {
    if s != "" {
      PercentDecodeChar(s[0], FormEncode(s[1..]));
      PercentDecodeFormEncode(s[1..]);
    }
  }

  /** Every string reads back as itself. */
  lemma FormRoundTrip(s: string)
    ensures FormDecode(FormEncode(s)) == Some(s)
  {
    PercentDecodeFormEncode(s);
    Utf8RoundTrip(s);
  }

  /** Distinct strings have distinct encodings. */
  lemma FormEncodeInjective(s1: string, s2: string)
    requires FormEncode(s1) == FormEncode(s2)
    ensures s1 == s2
  {
    FormRoundTrip(s1);
    FormRoundTrip(s2);
  }

  /** `t.split(sep)` for a one-character separator. */
  function SplitOn(t: string, sep: char): (parts: seq<string>)
    ensures |parts| >= 1
    decreases |t|
  {
    if t == "" then [""]
    else
      var rest := SplitOn(t[1..], sep);
      if t[0] == sep then [""] + rest else [[t[0]] + rest[0]] + rest[1..]
  }

  lemma {:induction false} SplitOnWithout(x: string, sep: char)
    requires sep !in x
    ensures SplitOn(x, sep) == [x]
  {
    if x != "" {
      SplitOnWithout(x[1..], sep);
      assert [x[0]] + x[1..] == x;
    }
  }

  lemma {:induction false} SplitOnAfter(x: string, sep: char, y: string)
    requires sep !in x
    ensures SplitOn(x + [sep] + y, sep) == [x] + SplitOn(y, sep)
  {
    var t := x + [sep] + y;
    if x == "" {
      assert t[1..] == y;
    } else {
      assert t[1..] == x[1..] + [sep] + y;
      SplitOnAfter(x[1..], sep, y);
      assert [x[0]] + x[1..] == x;
    }
  }

  /** Splitting a join on a separator no part contains gives the parts back. */
  lemma {:induction false} SplitOnJoin(parts: seq<string>, sep: char)
    requires parts != []
    requires forall i :: 0 <= i < |parts| ==> sep !in parts[i]
    ensures SplitOn(Join(parts, [sep]), sep) == parts
  {
    if |parts| == 1 {
      SplitOnWithout(parts[0], sep);
    } else {
      SplitOnJoin(parts[1..], sep);
      SplitOnAfter(parts[0], sep, Join(parts[1..], [sep]));
      assert [parts[0]] + parts[1..] == parts;
    }
  }

  /** The length of the prefix of `t` before the first `sep` (all of `t` when there is none). */
  function Before(t: string, sep: char, i: nat): (k: nat)
    requires i <= |t|
    ensures i <= k <= |t|
    ensures k < |t| ==> t[k] == sep
    ensures forall j :: i <= j < k ==> t[j] != sep
    decreases |t| - i
  {
    if i == |t| || t[i] == sep then i else Before(t, sep, i + 1)
  }

  /** One non-empty `&`-separated segment: the name before the first `=` and the value after
      it, or the whole segment as name and an empty value when it has no `=`. */
  function ParsePair(segment: string): Option<(string, string)> {
    var k := Before(segment, '=', 0);
    var value := if k < |segment| then segment[k + 1..] else "";
    match (FormDecode(segment[..k]), FormDecode(value))
    case (Some(name), Some(v)) => Some((name, v))
    case _ => None
  }

  /** The segments in order, empty ones skipped. */
  function ParseSegments(segments: seq<string>): Option<seq<(string, string)>> {
    if segments == [] then Some([])
    else if segments[0] == "" then ParseSegments(segments[1..])
    else
      match (ParsePair(segments[0]), ParseSegments(segments[1..]))
      case (Some(pair), Some(rest)) => Some([pair] + rest)
      case _ => None
  }

  /** `new URLSearchParams(search)`: a leading `?` is dropped. */
  function ParseQuery(search: string): Option<seq<(string, string)>> {
    var t := if search != "" && search[0] == '?' then search[1..] else search;
    ParseSegments(SplitOn(t, '&'))
  }

  /** `params.get(name)`: the value of the first pair with that name. */
  function Get(query: seq<(string, string)>, name: string): (value: Option<string>)
    ensures value.Some? <==> exists i :: 0 <= i < |query| && query[i].0 == name
    ensures value.Some? ==>
      exists i :: 0 <= i < |query| && query[i] == (name, value.value) && forall j :: 0 <= j < i ==> query[j].0 != name
  {
    if query == [] then None
    else if query[0].0 == name then Some(query[0].1)
    else
      var r := Get(query[1..], name);
      assert forall i :: 1 <= i < |query| ==> query[i] == query[1..][i - 1];
      r
  }

  lemma ParsePairSegment(pair: (string, string))
    ensures ParsePair(Segment(pair)) == Some(pair)
  {
    var name := FormEncode(pair.0);
    var s := Segment(pair);
    FormEncodeNoSeparators(pair.0);
    assert s[|name|] == '=';
    assert forall j :: 0 <= j < |name| ==> s[j] == name[j];
    var k := Before(s, '=', 0);
    assert k == |name|;
    assert s[..k] == name;
    assert s[k + 1..] == FormEncode(pair.1);
    FormRoundTrip(pair.0);
    FormRoundTrip(pair.1);
  }

  lemma {:induction false} ParseSegmentsOfPairs(segments: seq<string>, query: seq<(string, string)>)
    requires |segments| == |query|
    requires forall i :: 0 <= i < |query| ==> segments[i] == Segment(query[i])
    ensures ParseSegments(segments) == Some(query)
  {
    if query != [] {
      assert segments[0][|FormEncode(query[0].0)|] == '=';
      ParsePairSegment(query[0]);
      ParseSegmentsOfPairs(segments[1..], query[1..]);
      assert [query[0]] + query[1..] == query;
    }
  }

  /** A query reads back as exactly the pairs it was written from, in order. */
  lemma QueryRoundTrip(query: seq<(string, string)>)
    ensures ParseQuery(SerializeQuery(query)) == Some(query)
    ensures ParseQuery("?" + SerializeQuery(query)) == Some(query)
  {
    var segments := seq(|query|, i requires 0 <= i < |query| => Segment(query[i]));
    var t := SerializeQuery(query);
    assert ("?" + t)[1..] == t;
    if query == [] {
      assert t == "";
      assert SplitOn(t, '&') == [""];
      assert [""][1..] == [];
      assert ParseSegments([""]) == Some([]);
    } else {
      forall i | 0 <= i < |segments| ensures '&' !in segments[i] {
        FormEncodeNoSeparators(query[i].0);
        FormEncodeNoSeparators(query[i].1);
      }
      SplitOnJoin(segments, '&');
      assert Join(segments, "&") == t;
      var first := FormEncode(query[0].0);
      FormEncodeAlphabet(query[0].0);
      assert segments[0] <= t;
      assert t[0] != '?' by {
        if first == "" { assert t[0] == '='; } else { assert t[0] == first[0]; }
      }
      ParseSegmentsOfPairs(segments, query);
    }
  }
}
