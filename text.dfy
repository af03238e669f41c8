/** String helpers with the meaning of the Rust `str` methods the program
    calls: `find`, `contains`, `starts_with`, `ends_with`, `strip_prefix`,
    `trim`, `to_lowercase` (on ASCII letters) and decimal formatting of
    integers. Strings are `seq<char>`, characters are Unicode scalar values. */
module Text {
  import opened Wrappers

  // ---------------------------------------------------------------------
  // Prefixes, suffixes and substring search

  predicate StartsWith(s: string, prefix: string) {
    |prefix| <= |s| && s[..|prefix|] == prefix
  }

  predicate EndsWith(s: string, suffix: string) {
    |suffix| <= |s| && s[|s| - |suffix|..] == suffix
  }

  /** `s.strip_prefix(prefix)` */
  function StripPrefix(s: string, prefix: string): (r: Option<string>)
    ensures r.Some? <==> StartsWith(s, prefix)
    ensures r.Some? ==> prefix + r.value == s
  {
    if StartsWith(s, prefix) then
      assert s == s[..|prefix|] + s[|prefix|..];
      Some(s[|prefix|..])
    else None
  }

  predicate OccursAt(s: string, pattern: string, i: nat) {
    i + |pattern| <= |s| && s[i..i + |pattern|] == pattern
  }

  /** `s.find(pattern)`: the index of the first occurrence of `pattern`. */
  function Find(s: string, pattern: string): (r: Option<nat>)
    ensures r.Some? ==> OccursAt(s, pattern, r.value)
    ensures r.Some? ==> forall j :: 0 <= j < r.value ==> !OccursAt(s, pattern, j)
    ensures r.None? ==> forall j :: 0 <= j <= |s| ==> !OccursAt(s, pattern, j)
  {
    FindFrom(s, pattern, 0)
  }

  function FindFrom(s: string, pattern: string, i: nat): (r: Option<nat>)
    requires i <= |s|
    requires forall j :: 0 <= j < i ==> !OccursAt(s, pattern, j)
    ensures r.Some? ==> i <= r.value && OccursAt(s, pattern, r.value)
    ensures r.Some? ==> forall j :: 0 <= j < r.value ==> !OccursAt(s, pattern, j)
    ensures r.None? ==> forall j :: 0 <= j <= |s| ==> !OccursAt(s, pattern, j)
    decreases |s| - i
  {
    if OccursAt(s, pattern, i) then Some(i)
    else if i == |s| then None
    else FindFrom(s, pattern, i + 1)
  }

  lemma FindAtStart(s: string, pattern: string)
    requires OccursAt(s, pattern, 0)
    ensures Find(s, pattern) == Some(0)
  {
  }

  /** `s.contains(pattern)` */
  predicate Contains(s: string, pattern: string) {
    Find(s, pattern).Some?
  }

  lemma ContainsAt(s: string, pattern: string, i: nat)
    requires OccursAt(s, pattern, i)
    ensures Contains(s, pattern)
  {
  }

  lemma {:induction false} ContainsInfix(a: string, b: string, c: string, pattern: string)
    requires Contains(b, pattern)
    ensures Contains(a + b + c, pattern)
  {
    var i := Find(b, pattern).value;
    var s := a + b + c;
    assert s[|a| + i..|a| + i + |pattern|] == b[i..i + |pattern|];
    ContainsAt(s, pattern, |a| + i);
  }

  /** A string shorter than the pattern cannot contain it. */
  lemma ShortNeverContains(s: string, pattern: string)
    requires |s| < |pattern|
    ensures !Contains(s, pattern)
  {
  }

  // ---------------------------------------------------------------------
  // ASCII lower-casing

  function LowerChar(c: char): char {
    if 'A' <= c <= 'Z' then (c as int + 32) as char else c
  }

  /** `s.to_lowercase()` restricted to ASCII letters. */
  function Lower(s: string): (r: string)
    ensures |r| == |s|
    ensures forall i :: 0 <= i < |s| ==> r[i] == LowerChar(s[i])
  {
    if s == [] then [] else [LowerChar(s[0])] + Lower(s[1..])
  }

  lemma LowerSuffix(s: string, k: nat)
    requires k <= |s|
    ensures Lower(s)[|s| - k..] == Lower(s[|s| - k..])
  {
  }

  lemma LowerIdempotent(s: string)
    ensures Lower(Lower(s)) == Lower(s)
  {
  }

  /** Text without upper-case ASCII letters is its own lower-case form. */
  lemma LowerNoUpper(s: string)
    requires forall i :: 0 <= i < |s| ==> !('A' <= s[i] <= 'Z')
    ensures Lower(s) == s
  {
  }

  // ---------------------------------------------------------------------
  // White space and trimming (`str::trim`, `str::trim_start`)

  /** The Unicode White_Space property, which `char::is_whitespace` tests. */
  predicate IsWhitespace(c: char) {
    var n := c as int;
    (0x09 <= n <= 0x0D) || n == 0x20 || n == 0x85 || n == 0xA0 || n == 0x1680
    || (0x2000 <= n <= 0x200A) || n == 0x2028 || n == 0x2029 || n == 0x202F
    || n == 0x205F || n == 0x3000
  }

  /** The number of leading white-space characters. */
  function LeadingSpace(s: string): (k: nat)
    ensures k <= |s|
    ensures forall i :: 0 <= i < k ==> IsWhitespace(s[i])
    ensures k < |s| ==> !IsWhitespace(s[k])
  {
    if s == [] || !IsWhitespace(s[0]) then 0 else 1 + LeadingSpace(s[1..])
  }

  /** The length of `s` without its trailing white space. */
  function TrailingStart(s: string): (k: nat)
    ensures k <= |s|
    ensures forall i :: k <= i < |s| ==> IsWhitespace(s[i])
    ensures k > 0 ==> !IsWhitespace(s[k - 1])
  {
    if s == [] || !IsWhitespace(s[|s| - 1]) then |s| else TrailingStart(s[..|s| - 1])
  }

  function TrimStart(s: string): string {
    s[LeadingSpace(s)..]
  }

  function TrimEnd(s: string): string {
    s[..TrailingStart(s)]
  }

  /** `s.trim()` */
  function Trim(s: string): string {
    TrimEnd(TrimStart(s))
  }

  predicate Trimmed(s: string) {
    s == [] || (!IsWhitespace(s[0]) && !IsWhitespace(s[|s| - 1]))
  }

  /** Trim removes exactly the white space at both ends: the result is a
      slice of the input, everything cut off is white space, and the result
      neither starts nor ends with white space. */
  lemma TrimSpec(s: string)
    ensures var a := LeadingSpace(s); var r := Trim(s);
      && a + |r| <= |s| && r == s[a..a + |r|]
      && (forall i :: 0 <= i < a ==> IsWhitespace(s[i]))
      && (forall i :: a + |r| <= i < |s| ==> IsWhitespace(s[i]))
      && Trimmed(r)
  {
    var a := LeadingSpace(s);
    var t := s[a..];
    var b := TrailingStart(t);
    assert Trim(s) == t[..b];
    TrimSlice(s, a, t, b);
    TrimEnds(t, b);
  }

  lemma TrimSlice(s: string, a: nat, t: string, b: nat)
    requires a <= |s| && t == s[a..] && b <= |t| && forall i :: b <= i < |t| ==> IsWhitespace(t[i])
    ensures a + b <= |s| && t[..b] == s[a..a + b]
    ensures forall i :: a + b <= i < |s| ==> IsWhitespace(s[i])
  {
    forall i | a + b <= i < |s| ensures IsWhitespace(s[i]) {
      assert s[i] == t[i - a];
    }
  }

  lemma TrimEnds(t: string, b: nat)
    requires b == TrailingStart(t) && (t != [] ==> !IsWhitespace(t[0]))
    ensures Trimmed(t[..b])
  {
    if b > 0 {
      assert t[..b][0] == t[0];
      assert t[..b][b - 1] == t[b - 1];
    }
  }

  lemma TrimOfTrimmed(s: string)
    requires Trimmed(s)
    ensures Trim(s) == s
  {
  }

  lemma TrimIdempotent(s: string)
    ensures Trim(Trim(s)) == Trim(s)
  {
    TrimSpec(s);
    TrimOfTrimmed(Trim(s));
  }

  /** A string without any white space is its own trim. */
  lemma TrimNoSpace(s: string)
    requires forall i :: 0 <= i < |s| ==> !IsWhitespace(s[i])
    ensures Trim(s) == s
  {
  }

  // ---------------------------------------------------------------------
  // Decimal formatting (`format!("{i}")` for an unsigned integer)

  function DigitChar(d: nat): char
    requires d < 10
  {
    ('0' as int + d) as char
  }

  function NatText(n: nat): (r: string)
    ensures |r| >= 1
    ensures n >= 10 ==> |r| >= 2
    ensures forall i :: 0 <= i < |r| ==> '0' <= r[i] <= '9'
    decreases n
  {
    if n < 10 then [DigitChar(n)] else NatText(n / 10) + [DigitChar(n % 10)]
  }

  /** Different numbers print differently. */
  lemma {:induction false} NatTextInjective(m: nat, n: nat)
    requires NatText(m) == NatText(n)
    ensures m == n
    decreases m
  {
    if m >= 10 && n >= 10 {
      var a, b := NatText(m), NatText(n);
      assert a[|a| - 1] == b[|b| - 1];
      assert m % 10 == n % 10;
      assert NatText(m / 10) == a[..|a| - 1] == b[..|b| - 1] == NatText(n / 10);
      NatTextInjective(m / 10, n / 10);
    }
  }
}
