/**
 * The pieces of JavaScript string semantics the application relies on:
 * truthiness of possibly-undefined strings and the `||` operator on them,
 * `String.prototype.trim`, `String.prototype.replace` with a string pattern,
 * `Number.prototype.toString` on integers, `slice(0, n)` and `Array.prototype.join`.
 */
module JsStrings {
  import opened Wrappers

  /** A possibly-undefined string is truthy exactly when it is present and not empty. */
  predicate Truthy(s: Option<string>) {
    s.Some? && s.value != ""
  }

  /** `a || b`: `a` when it is truthy, otherwise `b` exactly as it is (which may itself be falsy). */
  function Or(a: Option<string>, b: Option<string>): Option<string> {
    if Truthy(a) then a else b
  }

  /** `a || fallback` where the fallback is a string literal. */
  function OrElse(a: Option<string>, fallback: string): string {
    if Truthy(a) then a.value else fallback
  }

  /** With a non-empty literal as fallback, `a || fallback` is never empty: it is `a` exactly
      when `a` is truthy and the fallback exactly when it is not. */
  lemma OrElseTruthy(a: Option<string>, fallback: string)
    requires fallback != ""
    ensures OrElse(a, fallback) != ""
    ensures Truthy(a) ==> OrElse(a, fallback) == a.value
    ensures !Truthy(a) ==> OrElse(a, fallback) == fallback
    ensures OrElse(a, fallback) == fallback || Some(OrElse(a, fallback)) == a
  {
  }

  // ---------------------------------------------------------------------------
  // String.prototype.trim

  /** WhiteSpace and LineTerminator code points of ECMAScript (section 12.2 and 12.3 of ECMA-262). */
  const JsSpaces: set<char> := {
    '\t', '\n', '\U{000B}', '\U{000C}', '\r', ' ', '\U{00A0}', '\U{1680}',
    '\U{2000}', '\U{2001}', '\U{2002}', '\U{2003}', '\U{2004}', '\U{2005}', '\U{2006}',
    '\U{2007}', '\U{2008}', '\U{2009}', '\U{200A}',
    '\U{2028}', '\U{2029}', '\U{202F}', '\U{205F}', '\U{3000}', '\U{FEFF}'}

  predicate IsJsSpace(c: char) {
    c in JsSpaces
  }

  predicate AllSpace(s: string) {
    forall i :: 0 <= i < |s| ==> IsJsSpace(s[i])
  }

  /** How many white-space characters `s` has from index `i` on, up to the first other one. */
  function SpacesFrom(s: string, i: nat): (n: nat)
    requires i <= |s|
    ensures i + n <= |s|
    ensures i + n == |s| || !IsJsSpace(s[i + n])
    decreases |s| - i
  {
    if i == |s| || !IsJsSpace(s[i]) then 0 else SpacesFrom(s, i + 1) + 1
  }

  lemma {:induction false} SpacesFromAreSpace(s: string, i: nat)
    requires i <= |s|
    ensures forall k :: i <= k < i + SpacesFrom(s, i) ==> IsJsSpace(s[k])
    decreases |s| - i
  {
    if i < |s| && IsJsSpace(s[i]) {
      SpacesFromAreSpace(s, i + 1);
    }
  }

  /** How many white-space characters `s` has just before index `j`, back to the last other one. */
  function SpacesBefore(s: string, j: nat): (n: nat)
    requires j <= |s|
    ensures n <= j
    ensures n == j || !IsJsSpace(s[j - n - 1])
  {
    if j == 0 || !IsJsSpace(s[j - 1]) then 0 else SpacesBefore(s, j - 1) + 1
  }

  lemma {:induction false} SpacesBeforeAreSpace(s: string, j: nat)
    requires j <= |s|
    ensures forall k :: j - SpacesBefore(s, j) <= k < j ==> IsJsSpace(s[k])
  {
    if j > 0 && IsJsSpace(s[j - 1]) {
      SpacesBeforeAreSpace(s, j - 1);
    }
  }

  /** How many white-space characters `s` starts with. */
  function LeadingSpaces(s: string): nat {
    SpacesFrom(s, 0)
  }

  /** How many white-space characters `s` ends with. */
  function TrailingSpaces(s: string): nat {
    SpacesBefore(s, |s|)
  }

  /** The leading and trailing characters counted are all white space. */
  lemma LeadingSpacesAreSpace(s: string)
    ensures AllSpace(s[..LeadingSpaces(s)])
  {
    SpacesFromAreSpace(s, 0);
  }

  lemma TrailingSpacesAreSpace(s: string)
    ensures AllSpace(s[|s| - TrailingSpaces(s)..])
  {
    SpacesBeforeAreSpace(s, |s|);
  }

  /** `s.trimStart()`: what is left is a suffix of `s` that does not start with white space. */
  function TrimStart(s: string): (r: string)
    ensures |r| <= |s| && r == s[|s| - |r|..]
    ensures r == "" || !IsJsSpace(r[0])
  {
    s[LeadingSpaces(s)..]
  }

  /** `s.trimEnd()`: what is left is a prefix of `s` that does not end with white space. */
  function TrimEnd(s: string): (r: string)
    ensures |r| <= |s| && r == s[..|r|]
    ensures r == "" || !IsJsSpace(r[|r| - 1])
  {
    s[..|s| - TrailingSpaces(s)]
  }

  /** `s.trim()`: removes leading and trailing white space. */
  function Trim(s: string): string {
    TrimEnd(TrimStart(s))
  }

  /** Trim cuts only white space: `s` is white space, then the trim, then white space. */
  lemma TrimCutsSpace(s: string)
    ensures exists i, j :: 0 <= i <= j <= |s| && s[i..j] == Trim(s) && AllSpace(s[..i]) && AllSpace(s[j..])
  {
    var t := TrimStart(s);
    var i := LeadingSpaces(s);
    LeadingSpacesAreSpace(s);
    TrailingSpacesAreSpace(t);
    var j := i + |Trim(s)|;
    assert s[i..j] == Trim(s);
    assert s[j..] == t[|Trim(s)|..];
  }

  /** What trim keeps neither starts nor ends with white space. */
  lemma TrimEnds(s: string)
    ensures Trim(s) == "" || (!IsJsSpace(Trim(s)[0]) && !IsJsSpace(Trim(s)[|Trim(s)| - 1]))
  {
    var t := TrimStart(s);
    if Trim(s) != "" {
      assert Trim(s)[0] == t[0];
    }
  }

  /** A string with no white space at either end is its own trim. */
  lemma TrimNoop(s: string)
    requires s == "" || (!IsJsSpace(s[0]) && !IsJsSpace(s[|s| - 1]))
    ensures Trim(s) == s
  {
    if s != "" {
      assert LeadingSpaces(s) == 0;
      assert s[0..] == s;
      assert TrailingSpaces(s) == 0;
    }
  }

  lemma TrimIdempotent(s: string)
    ensures Trim(Trim(s)) == Trim(s)
  {
    TrimEnds(s);
    TrimNoop(Trim(s));
  }

  /** The trim is empty exactly when the string is all white space. */
  lemma TrimEmptyIff(s: string)
    ensures Trim(s) == "" <==> AllSpace(s)
  {
    LeadingSpacesAreSpace(s);
    var t := TrimStart(s);
    TrailingSpacesAreSpace(t);
    assert s[..|s|] == s;
    assert t[0..] == t;
  }

  // ---------------------------------------------------------------------------
  // String.prototype.replace with a string pattern

  /** `pat` occurs in `s` at index `k`. */
  predicate OccursAt(s: string, pat: string, k: nat) {
    k + |pat| <= |s| && s[k..k + |pat|] == pat
  }

  /** StringIndexOf(s, pat, from) of ECMA-262 (section 6.1.4.1): the least index at or after
      `from` where `pat` occurs, if any. */
  function IndexOf(s: string, pat: string, from: nat): (k: Option<nat>)
    ensures k.Some? ==> from <= k.value && OccursAt(s, pat, k.value)
    ensures k.Some? ==> forall j: nat :: from <= j < k.value ==> !OccursAt(s, pat, j)
    ensures k.None? ==> forall j: nat :: from <= j ==> !OccursAt(s, pat, j)
    decreases |s| - from
  {
    if from + |pat| > |s| then None
    else if OccursAt(s, pat, from) then Some(from)
    else IndexOf(s, pat, from + 1)
  }

  /** `s.replace(pat, rep)` for a string pattern and a replacement without `$` patterns: the
      first occurrence of `pat` is replaced (section 22.1.3.19 of ECMA-262); with no
      occurrence `s` is returned unchanged. */
  function ReplaceFirst(s: string, pat: string, rep: string): string {
    match IndexOf(s, pat, 0)
    case None => s
    case Some(k) => s[..k] + rep + s[k + |pat|..]
  }

  /** When `pat` first occurs at `k`, the replacement is spliced in at `k`. */
  lemma ReplaceFirstAt(s: string, pat: string, rep: string, k: nat)
    requires OccursAt(s, pat, k)
    requires forall j: nat :: j < k ==> !OccursAt(s, pat, j)
    ensures ReplaceFirst(s, pat, rep) == s[..k] + rep + s[k + |pat|..]
  {
  }

  /** Without an occurrence of `pat`, nothing is replaced. */
  lemma ReplaceFirstAbsent(s: string, pat: string, rep: string)
    requires forall j: nat :: !OccursAt(s, pat, j)
    ensures ReplaceFirst(s, pat, rep) == s
  {
  }

  /** A pattern that is a prefix of `s` is its first occurrence. */
  lemma ReplaceFirstPrefix(s: string, pat: string, rep: string)
    requires pat <= s
    ensures ReplaceFirst(s, pat, rep) == rep + s[|pat|..]
  {
    assert s[0..|pat|] == pat;
    assert OccursAt(s, pat, 0);
    assert s[..0] == [];
  }

  // ---------------------------------------------------------------------------
  // Decimal text of integers (`String(n)`, `n.toString()`, `n + ''`)

  predicate IsDigit(c: char) {
    '0' <= c <= '9'
  }

  predicate AllDigits(s: string) {
    forall i :: 0 <= i < |s| ==> IsDigit(s[i])
  }

  function DigitChar(d: nat): (c: char)
    requires d < 10
    ensures IsDigit(c) && (c as int) - ('0' as int) == d
  {
    (('0' as int) + d) as char
  }

  /** Decimal text of a non-negative integer, without leading zeros. */
  function NatToDecimal(n: nat): (r: string)
    ensures |r| >= 1 && AllDigits(r)
    ensures r[0] == '0' ==> r == "0"
    decreases n
  {
    if n < 10 then [DigitChar(n)] else NatToDecimal(n / 10) + [DigitChar(n % 10)]
  }

  /** The number a string of digits denotes. */
  function DecimalValue(s: string): nat
    requires AllDigits(s)
  {
    if s == [] then 0
    else DecimalValue(s[..|s| - 1]) * 10 + ((s[|s| - 1] as int) - ('0' as int))
  }

  lemma {:induction false} DecimalRoundTrip(n: nat)
    ensures DecimalValue(NatToDecimal(n)) == n
    decreases n
  {
    if n >= 10 {
      var r := NatToDecimal(n);
      assert r[..|r| - 1] == NatToDecimal(n / 10);
      DecimalRoundTrip(n / 10);
    }
  }

  /** Decimal text of an integer, with a leading minus sign when negative. */
  function IntToDecimal(i: int): string {
    if i < 0 then "-" + NatToDecimal(-i) else NatToDecimal(i)
  }

  /** The text of a non-negative integer reads back as it; a negative one is a minus sign
      followed by the digits of its magnitude. */
  lemma IntToDecimalRoundTrip(i: int)
    ensures i >= 0 ==> AllDigits(IntToDecimal(i)) && DecimalValue(IntToDecimal(i)) == i
    ensures i < 0 ==> var t := IntToDecimal(i);
      |t| >= 2 && t[0] == '-' && AllDigits(t[1..]) && DecimalValue(t[1..]) == -i
  {
    if i < 0 {
      DecimalRoundTrip(-i);
      assert IntToDecimal(i)[1..] == NatToDecimal(-i);
    } else {
      DecimalRoundTrip(i);
    }
  }

  // ---------------------------------------------------------------------------
  // Slices and joins

  /** `s.slice(0, n)` on an array. On a string it is `substring(0, n)` counted in Unicode scalar
      values, where JavaScript counts UTF-16 code units; the two agree when no character of the
      prefix lies outside the Basic Multilingual Plane. */
  function Take<T>(s: seq<T>, n: nat): (r: seq<T>)
    ensures |r| == if |s| <= n then |s| else n
    ensures r == s[..|r|]
  {
    if |s| <= n then s else s[..n]
  }

  /** `parts.join(sep)`. */
  function Join(parts: seq<string>, sep: string): string {
    if parts == [] then ""
    else if |parts| == 1 then parts[0]
    else parts[0] + sep + Join(parts[1..], sep)
  }

  /** An occurrence stays one when text is put in front. */
  lemma OccursAfter(prefix: string, s: string, pat: string, k: nat)
    requires OccursAt(s, pat, k)
    ensures OccursAt(prefix + s, pat, |prefix| + k)
  {
    assert (prefix + s)[|prefix| + k..|prefix| + k + |pat|] == s[k..k + |pat|];
  }

  /** Every part occurs in the join. */
  lemma {:induction false} JoinHasPart(parts: seq<string>, sep: string, i: nat)
    requires i < |parts|
    ensures exists k: nat :: OccursAt(Join(parts, sep), parts[i], k)
  {
    var joined := Join(parts, sep);
    if i == 0 {
      assert joined[0..|parts[0]|] == parts[0];
      assert OccursAt(joined, parts[0], 0);
    } else {
      JoinHasPart(parts[1..], sep, i - 1);
      var k: nat :| OccursAt(Join(parts[1..], sep), parts[1..][i - 1], k);
      OccursAfter(parts[0] + sep, Join(parts[1..], sep), parts[i], k);
      assert joined == (parts[0] + sep) + Join(parts[1..], sep);
    }
  }
}
