/** Turning a table URL into the URL to download. The rule is chosen by the
    exact host: Google Drive links become the direct-download form, Dropbox
    links get `dl=1`, a manbow page is scraped for its first archive or
    hosting link (falling back to a headless browser), mega.nz is refused
    and every other URL is used as it is. The network is an input: `Web`
    says what fetching a page, reading its links and running the browser
    give. */
module Resolve {
  import opened Wrappers
  import opened Text
  import opened Urls
  import opened Links
  import Browser

  /** What the program gets from the outside world while resolving. */
  datatype Web = Web(
    page: string -> Result<string, string>,
    hrefs: string -> seq<string>,
    join: Browser.Joiner,
    browserLinks: string -> Result<seq<string>, string>)

  const DropboxHosts: seq<string> := ["dropbox.com", "www.dropbox.com", "dl.dropboxusercontent.com"]
  const MegaError: string := "mega.nz is not supported (encryption API required)"

  /** The kind of rule a host selects. */
  datatype Rule = GoogleDrive | Dropbox | Manbow | Mega | PassThrough

  function RuleFor(host: string): Rule {
    if host == "drive.google.com" then GoogleDrive
    else if host in DropboxHosts then Dropbox
    else if host == ManbowHost then Manbow
    else if host == "mega.nz" then Mega
    else PassThrough
  }

  /** 1 for a manbow page, whose resolution may resolve one more URL, and 0
      for every other URL. */
  function Depth(raw: string): nat {
    match Parse(raw)
    case Some(u) => if RuleFor(u.host) == Manbow then 1 else 0
    case None => 0
  }

  // ---------------------------------------------------------------------
  // Google Drive

  /** The text after the first `/file/d/` up to the next `/`, when it is not
      empty; else the first `id` query value. (Taking the piece up to a
      second `/file/d/` first, as the source does, changes nothing, since
      that piece is cut at its first `/` anyway.) */
  function DriveFileId(u: Url): Option<string> {
    match Find(u.path, "/file/d/")
    case Some(i) =>
      var tail := u.path[i + 8..];
      var id := tail[..Until(tail, {'/'})];
      if id != [] then Some(id) else FirstValue(u.query, "id")
    case None => FirstValue(u.query, "id")
  }

  function DriveDownloadUrl(id: string): string {
    "https://drive.google.com/uc?export=download&id=" + id + "&confirm=t"
  }

  function ResolveGoogleDrive(raw: string): Result<ResolvedUrl, string> {
    match Parse(raw)
    case None => Err(InvalidUrl)
    case Some(u) =>
      match DriveFileId(u)
      case None => Err("failed to extract Google Drive file ID from " + raw)
      case Some(id) => Ok(ResolvedUrl(DriveDownloadUrl(id), raw))
  }

  const InvalidUrl: string := Browser.InvalidUrl

  // ---------------------------------------------------------------------
  // Dropbox

  /** Every `dl` pair's value replaced by `1`. */
  function ForceDl(q: seq<(string, string)>): (r: seq<(string, string)>)
    ensures |r| == |q|
  {
    seq(|q|, i requires 0 <= i < |q| => if q[i].0 == "dl" then ("dl", "1") else q[i])
  }

  predicate HasKey(q: seq<(string, string)>, key: string) {
    exists i :: 0 <= i < |q| && q[i].0 == key
  }

  /** The query after the Dropbox rewrite. */
  function DropboxQuery(q: seq<(string, string)>): seq<(string, string)> {
    if HasKey(q, "dl") then ForceDl(q) else q + [("dl", "1")]
  }

  function DropboxOutcome(raw: string): Result<ResolvedUrl, string> {
    match Parse(raw)
    case None => Err(InvalidUrl)
    case Some(u) => Ok(ResolvedUrl(Show(u.(query := DropboxQuery(u.query))), raw))
  }

  /** The `map` step of `resolve_dropbox`. */
  method RewritePairs(q: seq<(string, string)>) returns (pairs: seq<(string, string)>)
    ensures pairs == ForceDl(q)
  {
    pairs := [];
    for i := 0 to |q|
      invariant pairs == ForceDl(q[..i])
    {
      var (k, v) := q[i];
      pairs := pairs + [if k == "dl" then (k, "1") else (k, v)];
    }
    assert q[..|q|] == q;
  }

  /** `pairs.iter().any(|(k, _)| k == key)` */
  method AnyKey(pairs: seq<(string, string)>, key: string) returns (found: bool)
    ensures found == HasKey(pairs, key)
  {
    found := false;
    for i := 0 to |pairs|
      invariant found <==> exists j :: 0 <= j < i && pairs[j].0 == key
    {
      found := found || pairs[i].0 == key;
    }
  }

  /** The rewrite keeps every key, so it has a `dl` key when the input
      has. */
  lemma ForceDlKeys(q: seq<(string, string)>, key: string)
    ensures HasKey(ForceDl(q), key) == HasKey(q, key)
  {
    var r := ForceDl(q);
    assert forall j :: 0 <= j < |q| ==> r[j].0 == q[j].0;
    if HasKey(q, key) {
      var j :| 0 <= j < |q| && q[j].0 == key;
      assert r[j].0 == key;
    }
  }

  /** The query steps of `resolve_dropbox`: collect the rewritten pairs,
      then either clear the query and append them again or append `dl=1`. */
  method RewriteQuery(q: seq<(string, string)>) returns (query: seq<(string, string)>)
    ensures query == DropboxQuery(q)
  {
    var pairs := RewritePairs(q);
    var hasDl := AnyKey(pairs, "dl");
    ForceDlKeys(q, "dl");
    query := q;
    if hasDl {
      query := [];
      for i := 0 to |pairs|
        invariant query == pairs[..i]
      {
        query := query + [pairs[i]];
      }
      assert query == pairs;
    } else {
      query := query + [("dl", "1")];
    }
  }

  /** `resolve_dropbox` */
  method ResolveDropbox(raw: string) returns (r: Result<ResolvedUrl, string>)
    ensures r == DropboxOutcome(raw)
  {
    var parsed := Parse(raw);
    if parsed.None? {
      return Err(InvalidUrl);
    }
    var u := parsed.value;
    var query := RewriteQuery(u.query);
    return Ok(ResolvedUrl(Show(u.(query := query)), raw));
  }

  // ---------------------------------------------------------------------
  // manbow pages

  /** `extract_links_from_html`'s result: each href joined against the page
      URL, or the page URL itself when the join fails. */
  function LinkTargets(base: Url, hrefs: seq<string>, join: Browser.Joiner): (r: seq<string>)
    ensures |r| == |hrefs|
  {
    seq(|hrefs|, i requires 0 <= i < |hrefs| => Show(GetOrBase(join(base, hrefs[i]), base)))
  }

  function GetOrBase(j: Option<Url>, base: Url): Url {
    if j.Some? then j.value else base
  }

  method ExtractLinks(hrefs: seq<string>, base: Url, join: Browser.Joiner) returns (urls: seq<string>)
    ensures urls == LinkTargets(base, hrefs, join)
  {
    urls := [];
    for i := 0 to |hrefs|
      invariant urls == LinkTargets(base, hrefs[..i], join)
    {
      var resolved := join(base, hrefs[i]);
      urls := urls + [Show(GetOrBase(resolved, base))];
    }
    assert hrefs[..|hrefs|] == hrefs;
  }

  /** What a scraped candidate is taken for: an archive link (true), a
      hosting link (false), or neither. The archive test comes first. */
  function CandidateKind(c: string): Option<bool> {
    if IsArchiveLink(c) then Some(true)
    else match Parse(c)
      case Some(u) => if IsHostingHost(u.host) then Some(false) else None
      case None => None
  }

  function Kinds(cs: seq<string>): (ks: seq<Option<bool>>)
    ensures |ks| == |cs|
  {
    seq(|cs|, i requires 0 <= i < |cs| => CandidateKind(cs[i]))
  }

  /** The index of the first decided kind. */
  function FirstSome(ks: seq<Option<bool>>): (r: Option<nat>)
    ensures r.Some? ==> r.value < |ks| && ks[r.value].Some?
    ensures r.Some? ==> forall j :: 0 <= j < r.value ==> ks[j].None?
    ensures r.None? ==> forall j :: 0 <= j < |ks| ==> ks[j].None?
  {
    if ks == [] then None
    else if ks[0].Some? then Some(0)
    else
      match FirstSome(ks[1..])
      case Some(i) =>
        assert forall j :: 1 <= j <= i ==> ks[j] == ks[1..][j - 1];
        Some(i + 1)
      case None =>
        assert forall j :: 1 <= j < |ks| ==> ks[j] == ks[1..][j - 1];
        None
  }

  lemma {:induction false} FirstSomeIs(ks: seq<Option<bool>>, i: nat)
    requires i < |ks| && ks[i].Some?
    requires forall j :: 0 <= j < i ==> ks[j].None?
    ensures FirstSome(ks) == Some(i)
    decreases i
  {
    if i > 0 {
      assert forall j :: 0 <= j < i - 1 ==> ks[1..][j] == ks[j + 1];
      FirstSomeIs(ks[1..], i - 1);
    }
  }

  /** The first candidate that passes a test. */
  function FirstCandidate(cs: seq<string>): (r: Option<nat>)
    ensures r.Some? ==> r.value < |cs| && CandidateKind(cs[r.value]).Some?
    ensures r.Some? ==> forall j :: 0 <= j < r.value ==> CandidateKind(cs[j]).None?
    ensures r.None? ==> forall j :: 0 <= j < |cs| ==> CandidateKind(cs[j]).None?
  {
    var ks := Kinds(cs);
    assert forall j :: 0 <= j < |cs| ==> ks[j] == CandidateKind(cs[j]);
    FirstSome(ks)
  }

  /** The two tests of `resolve_manbow`'s loop, the archive test first. */
  method Classify(candidate: string) returns (k: Option<bool>)
    ensures k == CandidateKind(candidate)
  {
    if IsArchiveLink(candidate) {
      return Some(true);
    }
    var cp := Parse(candidate);
    if cp.Some? && IsHostingHost(cp.value.host) {
      return Some(false);
    }
    return None;
  }

  /** The candidate loop of `resolve_manbow`, up to the first candidate
      that passes a test. */
  method FindCandidate(cs: seq<string>) returns (r: Option<nat>)
    ensures r == FirstCandidate(cs)
  {
    ghost var ks := Kinds(cs);
    for i := 0 to |cs|
      invariant forall j :: 0 <= j < i ==> ks[j].None?
    {
      var k := Classify(cs[i]);
      assert ks[i] == k;
      if k.Some? {
        FirstSomeIs(ks, i);
        return Some(i);
      }
    }
    return None;
  }

  /** A hosting candidate is never a manbow page. */
  lemma HostingCandidateDepth(c: string)
    requires CandidateKind(c) == Some(false)
    ensures Depth(c) == 0
  {
    ManbowIsNotHosting();
  }

  function ManbowFallback(raw: string, b: Result<ResolvedUrl, string>): Result<ResolvedUrl, string> {
    match b
    case Ok(r) => Ok(r)
    case Err(e) =>
      Err("no download link found on manbow page (HTML scraping and browser both failed): " + raw + ": " + e)
  }

  /** The outcome of `resolve_url(raw)`. */
  function Resolution(raw: string, web: Web): Result<ResolvedUrl, string>
    decreases Depth(raw), 1
  {
    match Parse(raw)
    case None => Err(InvalidUrl)
    case Some(u) =>
      match RuleFor(u.host)
      case GoogleDrive => ResolveGoogleDrive(raw)
      case Dropbox => DropboxOutcome(raw)
      case Manbow => ManbowResolution(raw, web)
      case Mega => Err(MegaError)
      case PassThrough => Ok(ResolvedUrl(raw, raw))
  }

  /** The outcome of `resolve_manbow(raw)`. */
  function ManbowResolution(raw: string, web: Web): Result<ResolvedUrl, string>
    decreases 1, 0
  {
    match web.page(raw)
    case Err(e) => Err(e)
    case Ok(html) =>
      match Parse(raw)
      case None => Err(InvalidUrl)
      case Some(base) =>
        var cs := LinkTargets(base, web.hrefs(html), web.join);
        match FirstCandidate(cs)
        case Some(i) => CandidateOutcome(raw, cs[i], web)
        case None => ManbowFallback(raw, Browser.BrowserOutcome(raw, web.browserLinks(raw), web.join))
  }

  /** An archive candidate is the result; a hosting candidate is resolved in
      its own right. */
  function CandidateOutcome(raw: string, c: string, web: Web): Result<ResolvedUrl, string>
    requires CandidateKind(c).Some?
    decreases 0, 2
  {
    if IsArchiveLink(c) then Ok(ResolvedUrl(c, raw))
    else
      HostingCandidateDepth(c);
      Resolution(c, web)
  }

  /** `resolve_url` */
  method ResolveUrl(raw: string, web: Web) returns (r: Result<ResolvedUrl, string>)
    ensures r == Resolution(raw, web)
    decreases Depth(raw), 1
  {
    var parsed := Parse(raw);
    if parsed.None? {
      return Err(InvalidUrl);
    }
    match RuleFor(parsed.value.host)
    case GoogleDrive =>
      r := ResolveGoogleDrive(raw);
    case Dropbox =>
      r := ResolveDropbox(raw);
    case Manbow =>
      r := ResolveManbow(raw, web);
    case Mega =>
      r := Err(MegaError);
    case PassThrough =>
      r := Ok(ResolvedUrl(raw, raw));
  }

  /** `resolve_manbow` */
  method ResolveManbow(raw: string, web: Web) returns (r: Result<ResolvedUrl, string>)
    ensures r == ManbowResolution(raw, web)
    decreases 1, 0
  {
    var page := web.page(raw);
    if page.Err? {
      return Err(page.error);
    }
    var parsed := Parse(raw);
    if parsed.None? {
      return Err(InvalidUrl);
    }
    var candidates := ExtractLinks(web.hrefs(page.value), parsed.value, web.join);
    var found := FindCandidate(candidates);
    if found.Some? {
      var candidate := candidates[found.value];
      if IsArchiveLink(candidate) {
        return Ok(ResolvedUrl(candidate, raw));
      }
      HostingCandidateDepth(candidate);
      r := ResolveUrl(candidate, web);
      return;
    }
    var b := Browser.ResolveWithBrowser(raw, web.browserLinks(raw), web.join);
    return ManbowFallback(raw, b);
  }

  // ---------------------------------------------------------------------
  // Properties

  /** The rule depends on the exact (lower-cased) host and nothing else. */
  lemma DispatchByHost(raw: string, web: Web)
    requires Parse(raw).Some?
    ensures var host := Parse(raw).value.host;
      && (host == "drive.google.com" ==> Resolution(raw, web) == ResolveGoogleDrive(raw))
      && (host in DropboxHosts ==> Resolution(raw, web) == DropboxOutcome(raw))
      && (host == ManbowHost ==> Resolution(raw, web) == ManbowResolution(raw, web))
      && (host == "mega.nz" ==> Resolution(raw, web) == Err(MegaError))
      && (RuleFor(host) == PassThrough ==> Resolution(raw, web) == Ok(ResolvedUrl(raw, raw)))
  {
  }

  /** A URL on any other host is its own download URL, so resolving the
      result again changes nothing. */
  lemma PassThroughIsStable(raw: string, web: Web)
    requires Parse(raw).Some? && RuleFor(Parse(raw).value.host) == PassThrough
    ensures Resolution(raw, web) == Ok(ResolvedUrl(raw, raw))
    ensures Resolution(Resolution(raw, web).value.url, web) == Resolution(raw, web)
  {
  }

  /** `id` is the piece of `path` after the `/file/d/` at `i`: non-empty,
      without `/`, and ending at the next `/` or at the end. */
  predicate ShareSegmentAt(path: string, i: nat, id: string) {
    && id != [] && NoneOf(id, {'/'}) && OccursAt(path, "/file/d/" + id, i)
    && (i + 8 + |id| == |path| || path[i + 8 + |id|] == '/')
  }

  /** Where the Drive file ID comes from: the segment after the first
      `/file/d/` when that segment is not empty, else the first `id` pair;
      with neither, there is no `id` key. */
  lemma DriveFileIdSource(u: Url)
    ensures var f := Find(u.path, "/file/d/");
      f.Some? && f.value + 8 < |u.path| && u.path[f.value + 8] != '/' ==>
        DriveFileId(u).Some? && ShareSegmentAt(u.path, f.value, DriveFileId(u).value)
    ensures var f := Find(u.path, "/file/d/");
      f.None? || f.value + 8 == |u.path| || u.path[f.value + 8] == '/' ==> DriveFileId(u) == FirstValue(u.query, "id")
    ensures DriveFileId(u).Some? && Find(u.path, "/file/d/").None? ==>
      exists i :: 0 <= i < |u.query| && u.query[i] == ("id", DriveFileId(u).value)
    ensures DriveFileId(u).None? ==> forall i :: 0 <= i < |u.query| ==> u.query[i].0 != "id"
  {
    var f := Find(u.path, "/file/d/");
    if f.Some? {
      var i := f.value;
      var tail := u.path[i + 8..];
      var k := Until(tail, {'/'});
      if i + 8 < |u.path| && u.path[i + 8] != '/' {
        assert tail[0] == u.path[i + 8];
        ShareSegmentOf(u.path, i, tail[..k]);
      }
    }
  }

  lemma ShareSegmentOf(path: string, i: nat, id: string)
    requires OccursAt(path, "/file/d/", i) && id != []
    requires var tail := path[i + 8..]; id == tail[..Until(tail, {'/'})]
    ensures ShareSegmentAt(path, i, id)
  {
    var tail := path[i + 8..];
    var k := |id|;
    assert path[i..i + 8 + k] == path[i..i + 8] + tail[..k];
    if i + 8 + k < |path| {
      assert path[i + 8 + k] == tail[k];
    }
  }

  /** The URL record the canonical Drive URL stands for. */
  function DriveUrlRecord(id: string): Url {
    Url("https", "drive.google.com", "/uc", [("export", "download"), ("id", id), ("confirm", "t")])
  }

  lemma DriveQueryText(id: string)
    ensures QueryText(DriveUrlRecord(id).query) == "export=download" + "&" + ("id=" + id + "&confirm=t")
  {
    var q := DriveUrlRecord(id).query;
    assert q[1..][1..] == [("confirm", "t")];
    DriveQueryLiterals(id);
    assert QueryText(q[1..]) == "id" + "=" + id + "&" + ("confirm" + "=" + "t");
  }

  lemma DriveQueryLiterals(id: string)
    ensures "confirm" + "=" + "t" == "confirm=t"
    ensures "export" + "=" + "download" == "export=download"
    ensures "id" + "=" + id + "&" + "confirm=t" == "id=" + id + "&confirm=t"
  {
    assert "id" + "=" == "id=";
    assert "&" + "confirm=t" == "&confirm=t";
  }

  lemma DriveHostLiteral()
    ensures "https" + "://" + "drive.google.com" == "https://drive.google.com"
  {
  }

  lemma DrivePathLiteral()
    ensures "/uc" + "?" + "export=download" + "&" + "id=" == "/uc?export=download&id="
  {
  }

  lemma DriveUrlPrefix()
    ensures "https" + "://" + "drive.google.com" + ("/uc" + "?" + "export=download" + "&" + "id=")
      == "https://drive.google.com/uc?export=download&id="
  {
    DriveHostLiteral();
    DrivePathLiteral();
  }

  lemma DriveUrlShows(id: string)
    ensures Show(DriveUrlRecord(id)) == DriveDownloadUrl(id)
  {
    var head := "https" + "://" + "drive.google.com";
    DriveQueryText(id);
    DriveUrlPrefix();
    assert Show(DriveUrlRecord(id)) == head + ("/uc" + "?" + "export=download" + "&" + "id=") + id + "&confirm=t";
  }

  lemma DrivePairsWellFormed(id: string)
    requires NoneOf(id, {'&'})
    ensures PairsWellFormed(DriveUrlRecord(id).query)
  {
    assert NoneOf("export", {'&', '='}) && NoneOf("download", {'&'});
    assert NoneOf("id", {'&', '='}) && NoneOf("confirm", {'&', '='}) && NoneOf("t", {'&'});
  }

  /** Lower-case letters and dots only. */
  predicate LowerName(s: string) {
    forall i :: 0 <= i < |s| ==> 'a' <= s[i] <= 'z' || s[i] == '.'
  }

  lemma CanonicalWellFormed(scheme: string, host: string, id: string)
    requires |scheme| > 0 && LowerName(scheme) && LowerName(host) && NoneOf(id, {'&'})
    ensures WellFormed(Url(scheme, host, "/uc", DriveUrlRecord(id).query))
  {
    LowerNoUpper(scheme);
    LowerNoUpper(host);
    forall i | 0 <= i < |scheme| ensures IsSchemeChar(scheme[i]) {
    }
    assert NoneOf("/uc", {'?'});
    DrivePairsWellFormed(id);
  }

  lemma DriveUrlWellFormed(id: string)
    requires NoneOf(id, {'&'})
    ensures WellFormed(DriveUrlRecord(id))
  {
    CanonicalWellFormed("https", "drive.google.com", id);
  }

  /** The canonical Drive URL parses to the record above. */
  lemma DriveUrlParses(id: string)
    requires NoneOf(id, {'&'})
    ensures Parse(DriveDownloadUrl(id)) == Some(DriveUrlRecord(id))
  {
    DriveUrlShows(id);
    DriveUrlWellFormed(id);
    ParseShow(DriveUrlRecord(id));
  }

  /** Resolving the canonical Drive URL again gives the same URL: `/uc`
      has no `/file/d/` and its first `id` pair is the ID (an ID without
      `&`, which would end the pair early). */
  lemma DriveIsStable(id: string, web: Web)
    requires NoneOf(id, {'&'})
    ensures Resolution(DriveDownloadUrl(id), web) == Ok(ResolvedUrl(DriveDownloadUrl(id), DriveDownloadUrl(id)))
  {
    DriveUrlParses(id);
    var u := Parse(DriveDownloadUrl(id)).value;
    assert !OccursAt(u.path, "/file/d/", 0);
    ShortNeverContains(u.path, "/file/d/");
    assert FirstValue(u.query, "id") == Some(id);
  }

  /** A Drive link resolves exactly when it parses and names a file ID. The
      result keeps the input as its origin and reads back as the `/uc`
      download URL on drive.google.com whose first `id` is that ID. */
  lemma DriveOutcome(raw: string)
    ensures ResolveGoogleDrive(raw).Ok? <==> Parse(raw).Some? && DriveFileId(Parse(raw).value).Some?
    ensures Parse(raw).None? ==> ResolveGoogleDrive(raw) == Err(InvalidUrl)
    ensures ResolveGoogleDrive(raw).Ok? ==>
      var id := DriveFileId(Parse(raw).value).value;
      var r := ResolveGoogleDrive(raw).value;
      && r.original == raw
      && (NoneOf(id, {'&'}) ==>
            && Parse(r.url) == Some(DriveUrlRecord(id))
            && Parse(r.url).value.host == "drive.google.com" && Parse(r.url).value.path == "/uc"
            && FirstValue(Parse(r.url).value.query, "id") == Some(id))
  {
    if ResolveGoogleDrive(raw).Ok? {
      var id := DriveFileId(Parse(raw).value).value;
      if NoneOf(id, {'&'}) {
        DriveUrlParses(id);
        assert FirstValue(DriveUrlRecord(id).query, "id") == Some(id);
      }
    }
  }

  /** The sharing link `/file/d/<id>/view` of an ID without `/` or `?`
      resolves to the download URL of that ID. */
  lemma DriveShareLink(id: string)
    requires id != [] && NoneOf(id, {'/', '?'})
    ensures var raw := "https://drive.google.com/file/d/" + id + "/view";
      ResolveGoogleDrive(raw) == Ok(ResolvedUrl(DriveDownloadUrl(id), raw))
  {
    var u := ShareLinkRecord(id);
    ShareLinkWellFormed(id);
    ShareLinkShows(id);
    ParseShow(u);
    ShareLinkFileId(id);
  }

  function ShareLinkRecord(id: string): Url {
    Url("https", "drive.google.com", "/file/d/" + id + "/view", [])
  }

  lemma ShareLinkShows(id: string)
    ensures Show(ShareLinkRecord(id)) == "https://drive.google.com/file/d/" + id + "/view"
  {
    DriveHostLiteral();
    assert "https://drive.google.com" + "/file/d/" == "https://drive.google.com/file/d/";
  }

  lemma ShareLinkFileId(id: string)
    requires id != [] && NoneOf(id, {'/'})
    ensures DriveFileId(ShareLinkRecord(id)) == Some(id)
  {
    var path := "/file/d/" + id + "/view";
    ShareLinkPath(id, path);
    FindAtStart(path, "/file/d/");
    ShareLinkId(id, path[8..]);
  }

  lemma ShareLinkPath(id: string, path: string)
    requires path == "/file/d/" + id + "/view"
    ensures OccursAt(path, "/file/d/", 0) && path[8..] == id + "/view"
  {
    assert path[..8] == "/file/d/";
  }

  lemma ShareLinkWellFormed(id: string)
    requires NoneOf(id, {'/', '?'})
    ensures WellFormed(ShareLinkRecord(id))
  {
    var path := "/file/d/" + id + "/view";
    assert NoneOf("/file/d/", {'?'}) && NoneOf("/view", {'?'});
    NoneOfConcat("/file/d/", id, {'?'});
    NoneOfConcat("/file/d/" + id, "/view", {'?'});
    PathWellFormed("https", "drive.google.com", path);
  }

  lemma PathWellFormed(scheme: string, host: string, path: string)
    requires |scheme| > 0 && LowerName(scheme) && LowerName(host)
    requires |path| > 0 && path[0] == '/' && NoneOf(path, {'?'})
    ensures WellFormed(Url(scheme, host, path, []))
  {
    LowerNoUpper(scheme);
    LowerNoUpper(host);
    forall i | 0 <= i < |scheme| ensures IsSchemeChar(scheme[i]) {
    }
  }

  lemma ShareLinkId(id: string, tail: string)
    requires id != [] && NoneOf(id, {'/'}) && tail == id + "/view"
    ensures tail[..Until(tail, {'/'})] == id
  {
    assert tail[..|id|] == id;
    UntilFirstStop(tail, |id|, {'/'});
  }

  /** The Dropbox rewrite: `dl` values become `1`, all other pairs stay as
      they were and where they were, and `dl=1` is appended when there was
      no `dl`. */
  lemma DropboxPairs(q: seq<(string, string)>)
    ensures var r := DropboxQuery(q);
      && (HasKey(q, "dl") ==> |r| == |q| && forall i :: 0 <= i < |q| ==>
            r[i] == (if q[i].0 == "dl" then ("dl", "1") else q[i]))
      && (!HasKey(q, "dl") ==> r == q + [("dl", "1")])
      && HasKey(r, "dl")
      && forall i :: 0 <= i < |r| && r[i].0 == "dl" ==> r[i].1 == "1"
  {
    var r := DropboxQuery(q);
    if !HasKey(q, "dl") {
      assert r[|q|] == ("dl", "1");
    } else {
      var k :| 0 <= k < |q| && q[k].0 == "dl";
      assert r[k].0 == "dl";
    }
  }

  /** Applying the rewrite twice is applying it once. */
  lemma DropboxQueryIdempotent(q: seq<(string, string)>)
    ensures DropboxQuery(DropboxQuery(q)) == DropboxQuery(q)
  {
    DropboxPairs(q);
    var r := DropboxQuery(q);
    assert ForceDl(r) == r;
  }

  lemma DropboxKeepsWellFormed(q: seq<(string, string)>)
    requires PairsWellFormed(q)
    ensures PairsWellFormed(DropboxQuery(q))
  {
    var r := DropboxQuery(q);
    DropboxPairs(q);
    forall i | 0 <= i < |r| ensures NoneOf(r[i].0, {'&', '='}) && NoneOf(r[i].1, {'&'}) {
      if i < |q| && r[i] != q[i] {
        assert r[i] == ("dl", "1");
      }
    }
  }

  /** The Dropbox rule keeps scheme, host and path, and its result is
      already in the rewritten form. */
  lemma DropboxOutcomeIsStable(raw: string)
    requires Parse(raw).Some?
    ensures var url := DropboxOutcome(raw).value.url;
      var u := Parse(raw).value;
      && Parse(url) == Some(u.(query := DropboxQuery(u.query)))
      && DropboxOutcome(url) == Ok(ResolvedUrl(url, url))
  {
    var u := Parse(raw).value;
    var v := u.(query := DropboxQuery(u.query));
    ParseWellFormed(raw);
    DropboxKeepsWellFormed(u.query);
    ParseShow(v);
    DropboxQueryIdempotent(u.query);
    assert v.(query := DropboxQuery(v.query)) == v;
  }

  lemma DropboxRule(raw: string, web: Web)
    requires Parse(raw).Some? && RuleFor(Parse(raw).value.host) == Dropbox
    ensures Resolution(raw, web) == DropboxOutcome(raw)
  {
  }

  /** Resolving a resolved Dropbox URL gives the same URL again; host and
      path are those of the input. */
  lemma DropboxIsStable(raw: string, web: Web)
    requires Parse(raw).Some? && Parse(raw).value.host in DropboxHosts
    ensures var r := Resolution(raw, web).value;
      && Parse(r.url).Some?
      && Parse(r.url).value.host == Parse(raw).value.host
      && Parse(r.url).value.path == Parse(raw).value.path
      && Resolution(r.url, web) == Ok(ResolvedUrl(r.url, r.url))
  {
    DropboxRule(raw, web);
    DropboxOutcomeIsStable(raw);
    var url := DropboxOutcome(raw).value.url;
    DropboxRule(url, web);
  }

  /** A manbow page's outcome is decided by its first candidate that passes
      a test: an archive link is the result itself (with the page as
      origin), a hosting link is resolved in its own right (so its own URL is
      the origin), and with no such candidate the browser decides. */
  lemma ManbowFirstMatch(raw: string, web: Web, html: string)
    requires web.page(raw) == Ok(html) && Parse(raw).Some?
    ensures var cs := LinkTargets(Parse(raw).value, web.hrefs(html), web.join);
      match FirstCandidate(cs)
      case Some(i) =>
        && (forall j :: 0 <= j < i ==> CandidateKind(cs[j]).None?)
        && (IsArchiveLink(cs[i]) ==> ManbowResolution(raw, web) == Ok(ResolvedUrl(cs[i], raw)))
        && (!IsArchiveLink(cs[i]) ==> ManbowResolution(raw, web) == Resolution(cs[i], web))
      case None =>
        ManbowResolution(raw, web) == ManbowFallback(raw, Browser.BrowserOutcome(raw, web.browserLinks(raw), web.join))
  {
  }

  /** A hosting link found on a manbow page is resolved by one of the
      non-scraping rules: the recursion is one level deep. */
  lemma ManbowRecursesOnce(raw: string, web: Web, html: string)
    requires web.page(raw) == Ok(html) && Parse(raw).Some?
    requires var cs := LinkTargets(Parse(raw).value, web.hrefs(html), web.join);
      FirstCandidate(cs).Some? && !IsArchiveLink(cs[FirstCandidate(cs).value])
    ensures var cs := LinkTargets(Parse(raw).value, web.hrefs(html), web.join);
      var c := cs[FirstCandidate(cs).value];
      && Parse(c).Some? && RuleFor(Parse(c).value.host) != Manbow
      && ManbowResolution(raw, web) == Resolution(c, web)
  {
    var cs := LinkTargets(Parse(raw).value, web.hrefs(html), web.join);
    HostingCandidateDepth(cs[FirstCandidate(cs).value]);
  }
}
