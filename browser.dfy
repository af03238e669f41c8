/** The link selection of the headless-browser fallback: after the page has
    rendered, its `a[href]` values are joined against the page URL and the
    first one that looks like an archive or points at a hosting service is
    the result. The browser itself is an input: `links` is what the page's
    script returned, or the error that stopped the browser first. */
module Browser {
  import opened Wrappers
  import opened Text
  import opened Urls
  import opened Links

  /** `Url::join`, which the model does not define. */
  type Joiner = (Url, string) -> Option<Url>

  const InvalidUrl: string := "invalid URL"

  /** The text a link becomes when the browser accepts it. */
  function Accepted(base: Url, link: string, join: Joiner): Option<string> {
    match join(base, link)
    case None => None
    case Some(u) =>
      if IsArchiveLink(Show(u)) || IsHostingHost(u.host) then Some(Show(u)) else None
  }

  /** The first accepted link, in page order. */
  function FirstAccepted(base: Url, links: seq<string>, join: Joiner): (r: Option<string>)
    ensures r.Some? ==> exists i :: (0 <= i < |links| && Accepted(base, links[i], join) == r &&
      forall j :: 0 <= j < i ==> Accepted(base, links[j], join).None?)
    ensures r.None? ==> forall i :: 0 <= i < |links| ==> Accepted(base, links[i], join).None?
  {
    if links == [] then None
    else if Accepted(base, links[0], join).Some? then Accepted(base, links[0], join)
    else
      var r := FirstAccepted(base, links[1..], join);
      if r.Some? then
        var i :| 0 <= i < |links[1..]| && Accepted(base, links[1..][i], join) == r &&
          forall j :: 0 <= j < i ==> Accepted(base, links[1..][j], join).None?;
        assert links[i + 1] == links[1..][i];
        assert forall j :: 1 <= j < i + 1 ==> links[j] == links[1..][j - 1];
        r
      else r
  }

  /** The outcome of `resolve_with_browser(raw)`. */
  function BrowserOutcome(raw: string, links: Result<seq<string>, string>, join: Joiner): Result<ResolvedUrl, string> {
    match links
    case Err(e) => Err(e)
    case Ok(ls) =>
      match Parse(raw)
      case None => Err(InvalidUrl)
      case Some(base) =>
        match FirstAccepted(base, ls, join)
        case Some(u) => Ok(ResolvedUrl(u, raw))
        case None => Err("no download link found on JS-rendered page: " + raw)
  }

  /** The link loop of `resolve_with_browser`. */
  method ResolveWithBrowser(raw: string, links: Result<seq<string>, string>, join: Joiner)
    returns (r: Result<ResolvedUrl, string>)
    ensures r == BrowserOutcome(raw, links, join)
  {
    if links.Err? {
      return Err(links.error);
    }
    var ls := links.value;
    var parsed := Parse(raw);
    if parsed.None? {
      return Err(InvalidUrl);
    }
    var base := parsed.value;
    for i := 0 to |ls|
      invariant FirstAccepted(base, ls[i..], join) == FirstAccepted(base, ls, join)
    {
      assert ls[i..][0] == ls[i] && ls[i..][1..] == ls[i + 1..];
      var joined := join(base, ls[i]);
      if joined.None? {
        continue;
      }
      var resolvedStr := Show(joined.value);
      if IsArchiveLink(resolvedStr) {
        return Ok(ResolvedUrl(resolvedStr, raw));
      }
      if IsHostingHost(joined.value.host) {
        return Ok(ResolvedUrl(resolvedStr, raw));
      }
    }
    assert ls[|ls|..] == [];
    return Err("no download link found on JS-rendered page: " + raw);
  }

  /** The link at `i` decides when all before it were passed over. */
  lemma {:induction false} FirstAcceptedIs(base: Url, links: seq<string>, join: Joiner, i: nat)
    requires i < |links| && Accepted(base, links[i], join).Some?
    requires forall j :: 0 <= j < i ==> Accepted(base, links[j], join).None?
    ensures FirstAccepted(base, links, join) == Accepted(base, links[i], join)
    decreases i
  {
    if i > 0 {
      assert forall j :: 0 <= j < i - 1 ==> links[1..][j] == links[j + 1];
      FirstAcceptedIs(base, links[1..], join, i - 1);
    }
  }

  /** Every success keeps the page URL as its origin and names a link the
      page had that passed one of the two tests. */
  lemma BrowserSuccess(raw: string, links: Result<seq<string>, string>, join: Joiner)
    requires BrowserOutcome(raw, links, join).Ok?
    ensures var r := BrowserOutcome(raw, links, join).value;
      && r.original == raw
      && exists i, u :: 0 <= i < |links.value| && join(Parse(raw).value, links.value[i]) == Some(u)
           && r.url == Show(u) && (IsArchiveLink(r.url) || IsHostingHost(u.host))
  {
    var base := Parse(raw).value;
    var i :| 0 <= i < |links.value| && Accepted(base, links.value[i], join) == FirstAccepted(base, links.value, join) &&
      forall j :: 0 <= j < i ==> Accepted(base, links.value[j], join).None?;
    var u := join(base, links.value[i]).value;
    assert join(base, links.value[i]) == Some(u);
  }

  /** The browser fails exactly when it could not run, the page URL does not
      parse, or no link passes: a link that does not join is passed over,
      never an error. */
  lemma BrowserFailure(raw: string, links: Result<seq<string>, string>, join: Joiner)
    ensures BrowserOutcome(raw, links, join).Err? <==>
      links.Err? || Parse(raw).None? ||
      forall i :: 0 <= i < |links.value| ==> Accepted(Parse(raw).value, links.value[i], join).None?
  {
  }
}
