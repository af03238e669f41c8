/** A simplified absolute URL, standing for the `url` crate's `Url`:
    `scheme://host[path][?query]`. Parsing lower-cases the scheme and the
    host, gives an empty path the value `/`, and splits the query into
    `key=value` pairs on `&` (a pair without `=` has the empty value, empty
    pieces are dropped), as `Url::query_pairs` does. `Show` is `to_string`. */
module Urls {
  import opened Wrappers
  import opened Text

  datatype Url = Url(scheme: string, host: string, path: string, query: seq<(string, string)>)

  predicate IsSchemeChar(c: char) {
    'a' <= c <= 'z' || 'A' <= c <= 'Z' || '0' <= c <= '9' || c == '+' || c == '-' || c == '.'
  }

  predicate NoneOf(s: string, stops: set<char>) {
    forall i :: 0 <= i < |s| ==> s[i] !in stops
  }

  /** The index of the first character of `s` that is in `stops`, or `|s|`. */
  function Until(s: string, stops: set<char>): (k: nat)
    ensures k <= |s|
    ensures NoneOf(s[..k], stops)
    ensures k < |s| ==> s[k] in stops
  {
    if s == [] || s[0] in stops then 0
    else
      var k := 1 + Until(s[1..], stops);
      assert s[..k] == [s[0]] + s[1..][..k - 1];
      k
  }

  /** The length of the scheme at the front of `s`. */
  function SchemeLen(s: string): (k: nat)
    ensures k <= |s|
    ensures forall i :: 0 <= i < k ==> IsSchemeChar(s[i])
    ensures k < |s| ==> !IsSchemeChar(s[k])
  {
    if s == [] || !IsSchemeChar(s[0]) then 0 else 1 + SchemeLen(s[1..])
  }

  const HostEnd: set<char> := {'/', '?'}
  const PathEnd: set<char> := {'?'}

  /** `Url::parse`; None stands for a parse error. */
  function Parse(s: string): Option<Url> {
    var k := SchemeLen(s);
    if k == 0 || !StartsWith(s[k..], "://") then None
    else Some(ParseAfterScheme(Lower(s[..k]), s[k + 3..]))
  }

  /** Host, path and query of the text after `scheme://`. */
  function ParseAfterScheme(scheme: string, rest: string): Url {
    var h := Until(rest, HostEnd);
    Url(scheme, Lower(rest[..h]), PathOf(rest[h..]), QueryOf(rest[h..]))
  }

  function PathOf(after: string): string {
    var p := Until(after, PathEnd);
    if p == 0 then "/" else after[..p]
  }

  function QueryOf(after: string): seq<(string, string)> {
    var p := Until(after, PathEnd);
    if p == |after| then [] else ParseQuery(after[p + 1..])
  }

  function ParsePair(piece: string): (string, string) {
    var i := Until(piece, {'='});
    (piece[..i], if i == |piece| then "" else piece[i + 1..])
  }

  function ParseQuery(q: string): seq<(string, string)>
    decreases |q|
  {
    if q == [] then []
    else
      var i := Until(q, {'&'});
      var head := if i == 0 then [] else [ParsePair(q[..i])];
      head + (if i == |q| then [] else ParseQuery(q[i + 1..]))
  }

  function PairText(kv: (string, string)): string {
    kv.0 + "=" + kv.1
  }

  function QueryText(q: seq<(string, string)>): string
    requires q != []
  {
    if |q| == 1 then PairText(q[0]) else PairText(q[0]) + "&" + QueryText(q[1..])
  }

  /** `Url::to_string` (no query part when there are no pairs). */
  function Show(u: Url): string {
    u.scheme + "://" + u.host + u.path + (if u.query == [] then "" else "?" + QueryText(u.query))
  }

  /** Query pairs whose text round-trips: keys without `&` or `=`, values
      without `&`. */
  predicate PairsWellFormed(q: seq<(string, string)>) {
    forall i :: 0 <= i < |q| ==> NoneOf(q[i].0, {'&', '='}) && NoneOf(q[i].1, {'&'})
  }

  /** The URLs `Parse` can produce. */
  predicate WellFormed(u: Url) {
    && |u.scheme| > 0 && (forall i :: 0 <= i < |u.scheme| ==> IsSchemeChar(u.scheme[i]))
    && Lower(u.scheme) == u.scheme
    && NoneOf(u.host, {'/', '?'}) && Lower(u.host) == u.host
    && |u.path| > 0 && u.path[0] == '/' && NoneOf(u.path, {'?'})
    && PairsWellFormed(u.query)
  }

  // ---------------------------------------------------------------------
  // Round trip

  lemma NoneOfConcat(a: string, b: string, stops: set<char>)
    requires NoneOf(a, stops) && NoneOf(b, stops)
    ensures NoneOf(a + b, stops)
  {
    forall i | 0 <= i < |a + b| ensures (a + b)[i] !in stops {
      if i >= |a| {
        assert (a + b)[i] == b[i - |a|];
      }
    }
  }

  /** `Until` stops at the first stop character. */
  lemma {:induction false} UntilFirstStop(s: string, k: nat, stops: set<char>)
    requires k < |s| && NoneOf(s[..k], stops) && s[k] in stops
    ensures Until(s, stops) == k
    decreases k
  {
    if k > 0 {
      assert s[0] == s[..k][0];
      assert s[1..][..k - 1] == s[..k][1..];
      UntilFirstStop(s[1..], k - 1, stops);
    }
  }

  lemma {:induction false} UntilAppend(a: string, b: string, stops: set<char>)
    requires NoneOf(a, stops)
    requires b == [] || b[0] in stops
    ensures Until(a + b, stops) == |a|
  {
    if a != [] {
      assert (a + b)[0] == a[0];
      assert (a + b)[1..] == a[1..] + b;
      UntilAppend(a[1..], b, stops);
    } else {
      assert a + b == b;
    }
  }

  lemma {:induction false} SchemeLenAppend(a: string, b: string)
    requires forall i :: 0 <= i < |a| ==> IsSchemeChar(a[i])
    requires b == [] || !IsSchemeChar(b[0])
    ensures SchemeLen(a + b) == |a|
  {
    if a != [] {
      assert (a + b)[0] == a[0];
      assert (a + b)[1..] == a[1..] + b;
      SchemeLenAppend(a[1..], b);
    } else {
      assert a + b == b;
    }
  }

  lemma ParsePairText(kv: (string, string))
    requires NoneOf(kv.0, {'='})
    ensures ParsePair(PairText(kv)) == kv
  {
    var t := PairText(kv);
    assert t == kv.0 + ("=" + kv.1);
    UntilAppend(kv.0, "=" + kv.1, {'='});
    assert t[..|kv.0|] == kv.0;
    assert t[|kv.0| + 1..] == kv.1;
  }

  lemma {:induction false} ParseQueryText(q: seq<(string, string)>)
    requires q != [] && PairsWellFormed(q)
    ensures ParseQuery(QueryText(q)) == q
  {
    var p := PairText(q[0]);
    assert NoneOf(p, {'&'}) by {
      forall i | 0 <= i < |p| ensures p[i] != '&' {
        if i < |q[0].0| {
          assert p[i] == q[0].0[i];
        } else if i > |q[0].0| {
          assert p[i] == q[0].1[i - |q[0].0| - 1];
        }
      }
    }
    ParsePairText(q[0]);
    var t := QueryText(q);
    if |q| == 1 {
      UntilAppend(p, "", {'&'});
      assert t == p + "";
    } else {
      var rest := QueryText(q[1..]);
      assert t == p + ("&" + rest);
      UntilAppend(p, "&" + rest, {'&'});
      assert t[..|p|] == p;
      assert t[|p| + 1..] == rest;
      assert PairsWellFormed(q[1..]) by {
        forall i | 0 <= i < |q[1..]| ensures NoneOf(q[1..][i].0, {'&', '='}) && NoneOf(q[1..][i].1, {'&'}) {
          assert q[1..][i] == q[i + 1];
        }
      }
      ParseQueryText(q[1..]);
    }
  }

  lemma PathAndQueryOf(u: Url)
    requires WellFormed(u)
    ensures var qs := if u.query == [] then "" else "?" + QueryText(u.query);
      PathOf(u.path + qs) == u.path && QueryOf(u.path + qs) == u.query
  {
    var qs := if u.query == [] then "" else "?" + QueryText(u.query);
    var after := u.path + qs;
    UntilAppend(u.path, qs, PathEnd);
    assert after[..|u.path|] == u.path;
    if u.query != [] {
      assert after[|u.path| + 1..] == QueryText(u.query);
      ParseQueryText(u.query);
    }
  }

  /** A valid scheme followed by `://` is split off as it is. */
  lemma ParseScheme(scheme: string, rest: string)
    requires |scheme| > 0 && forall i :: 0 <= i < |scheme| ==> IsSchemeChar(scheme[i])
    ensures Parse(scheme + ("://" + rest)) == Some(ParseAfterScheme(Lower(scheme), rest))
  {
    var s := scheme + ("://" + rest);
    var k := |scheme|;
    SchemeLenAppend(scheme, "://" + rest);
    assert s[..k] == scheme;
    assert s[k..] == "://" + rest;
    assert s[k + 3..] == rest;
  }

  /** The text after `scheme://` of a well-formed URL gives its host, path
      and query back. */
  lemma ParseAfterSchemeShow(u: Url)
    requires WellFormed(u)
    ensures var qs := if u.query == [] then "" else "?" + QueryText(u.query);
      ParseAfterScheme(u.scheme, u.host + (u.path + qs)) == u
  {
    var qs := if u.query == [] then "" else "?" + QueryText(u.query);
    var tail := u.host + (u.path + qs);
    UntilAppend(u.host, u.path + qs, HostEnd);
    assert tail[..|u.host|] == u.host;
    assert tail[|u.host|..] == u.path + qs;
    PathAndQueryOf(u);
  }

  /** Parsing the text of a well-formed URL gives that URL back. */
  lemma ParseShow(u: Url)
    requires WellFormed(u)
    ensures Parse(Show(u)) == Some(u)
  {
    var qs := if u.query == [] then "" else "?" + QueryText(u.query);
    var tail := u.host + (u.path + qs);
    assert Show(u) == u.scheme + ("://" + tail);
    ParseScheme(u.scheme, tail);
    ParseAfterSchemeShow(u);
  }

  lemma LowerKeepsOut(s: string, stops: set<char>)
    requires NoneOf(s, stops)
    requires forall c :: c in stops ==> !('A' <= c <= 'Z') && !('a' <= c <= 'z')
    ensures NoneOf(Lower(s), stops)
  {
    forall i | 0 <= i < |s| ensures Lower(s)[i] !in stops {
      assert Lower(s)[i] == LowerChar(s[i]);
    }
  }

  lemma {:induction false} ParseQueryWellFormed(q: string)
    ensures PairsWellFormed(ParseQuery(q))
    decreases |q|
  {
    if q != [] {
      var i := Until(q, {'&'});
      var head := if i == 0 then [] else [ParsePair(q[..i])];
      var tail := if i == |q| then [] else ParseQuery(q[i + 1..]);
      if i != 0 {
        PairWellFormed(q[..i]);
      }
      if i < |q| {
        ParseQueryWellFormed(q[i + 1..]);
      }
      PairsWellFormedConcat(head, tail);
    }
  }

  lemma PairWellFormed(piece: string)
    requires NoneOf(piece, {'&'})
    ensures PairsWellFormed([ParsePair(piece)])
  {
    var j := Until(piece, {'='});
    if j < |piece| {
      var v := piece[j + 1..];
      assert forall m :: 0 <= m < |v| ==> v[m] == piece[j + 1 + m];
    }
  }

  lemma PairsWellFormedConcat(a: seq<(string, string)>, b: seq<(string, string)>)
    requires PairsWellFormed(a) && PairsWellFormed(b)
    ensures PairsWellFormed(a + b)
  {
    forall i | 0 <= i < |a + b| ensures NoneOf((a + b)[i].0, {'&', '='}) && NoneOf((a + b)[i].1, {'&'}) {
      if i >= |a| {
        assert (a + b)[i] == b[i - |a|];
      }
    }
  }

  lemma PathOfWellFormed(after: string)
    requires after == [] || after[0] in HostEnd
    ensures var p := PathOf(after); |p| > 0 && p[0] == '/' && NoneOf(p, PathEnd)
  {
    var p := Until(after, PathEnd);
    if p > 0 {
      assert after[0] == '/';
    }
  }

  lemma QueryOfWellFormed(after: string)
    ensures PairsWellFormed(QueryOf(after))
  {
    var p := Until(after, PathEnd);
    if p < |after| {
      ParseQueryWellFormed(after[p + 1..]);
    }
  }

  lemma AfterSchemeWellFormed(scheme: string, rest: string)
    requires |scheme| > 0 && forall i :: 0 <= i < |scheme| ==> IsSchemeChar(scheme[i])
    requires Lower(scheme) == scheme
    ensures WellFormed(ParseAfterScheme(scheme, rest))
  {
    var h := Until(rest, HostEnd);
    LowerIdempotent(rest[..h]);
    LowerKeepsOut(rest[..h], HostEnd);
    PathOfWellFormed(rest[h..]);
    QueryOfWellFormed(rest[h..]);
  }

  /** Everything `Parse` produces is well-formed, so `ParseShow` applies. */
  lemma ParseWellFormed(s: string)
    requires Parse(s).Some?
    ensures WellFormed(Parse(s).value)
  {
    var k := SchemeLen(s);
    var scheme := Lower(s[..k]);
    LowerIdempotent(s[..k]);
    forall i | 0 <= i < |scheme| ensures IsSchemeChar(scheme[i]) {
      assert scheme[i] == LowerChar(s[i]);
    }
    AfterSchemeWellFormed(scheme, s[k + 3..]);
  }

  /** Hence the text of a parsed URL parses to the same URL. */
  lemma ReparseStable(s: string)
    requires Parse(s).Some?
    ensures Parse(Show(Parse(s).value)) == Parse(s)
  {
    ParseWellFormed(s);
    ParseShow(Parse(s).value);
  }

  /** The first value for `key` among the query pairs
      (`query_pairs().find(|(k, _)| k == key)`). */
  function FirstValue(q: seq<(string, string)>, key: string): (r: Option<string>)
    ensures r.Some? ==> exists i :: 0 <= i < |q| && q[i] == (key, r.value) && forall j :: 0 <= j < i ==> q[j].0 != key
    ensures r.None? ==> forall i :: 0 <= i < |q| ==> q[i].0 != key
  {
    if q == [] then None
    else if q[0].0 == key then Some(q[0].1)
    else
      var r := FirstValue(q[1..], key);
      if r.Some? then
        var i :| 0 <= i < |q[1..]| && q[1..][i] == (key, r.value) && forall j :: 0 <= j < i ==> q[1..][j].0 != key;
        assert q[i + 1] == (key, r.value);
        r
      else r
  }
}
