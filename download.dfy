/** The download side: deriving a file name from the response (the
    `Content-Disposition` header, else the last segment of the URL path),
    sanitising it, the Google Drive confirmation form, the retry loop,
    saving the body through a temporary file, and the mapping from tasks to
    outcomes. HTTP is an input: a response is its final URL, two headers and
    its body as a sequence of chunks (each a read error or bytes). */
module Download {
  import opened Wrappers
  import opened Text
  import opened Urls
  import Percent
  import opened Paths
  import opened Fs
  import Links
  import Resolve

  // ---------------------------------------------------------------------
  // File names

  /** The characters `sanitize_filename` replaces by `_`. */
  predicate Forbidden(c: char) {
    c == '/' || c == '\\' || c == ':' || c == '*' || c == '?' || c == '"'
    || c == '<' || c == '>' || c == '|' || c == '\0'
  }

  function SanitizeChar(c: char): char {
    if Forbidden(c) then '_' else c
  }

  /** `sanitize_filename` */
  function SanitizeFilename(name: string): (r: string)
    ensures |r| == |name|
  {
    seq(|name|, i requires 0 <= i < |name| => SanitizeChar(name[i]))
  }

  /** The same length, no forbidden character left, every other character
      where it was. */
  lemma SanitizeFilenameSpec(name: string)
    ensures var r := SanitizeFilename(name);
      && |r| == |name|
      && (forall i :: 0 <= i < |r| ==> !Forbidden(r[i]))
      && (forall i :: 0 <= i < |r| ==> !Forbidden(name[i]) ==> r[i] == name[i])
      && (forall i :: 0 <= i < |r| ==> Forbidden(name[i]) ==> r[i] == '_')
  {
  }

  lemma SanitizeFilenameIdempotent(name: string)
    ensures SanitizeFilename(SanitizeFilename(name)) == SanitizeFilename(name)
  {
    var r := SanitizeFilename(name);
    assert forall i :: 0 <= i < |r| ==> SanitizeChar(r[i]) == r[i];
  }

  /** A name with no forbidden character is kept as it is. */
  lemma SanitizeClean(name: string)
    requires forall i :: 0 <= i < |name| ==> !Forbidden(name[i])
    ensures SanitizeFilename(name) == name
  {
  }

  /** The index of a character's first occurrence (`str::find(char)`). */
  function FindChar(s: string, c: char): (r: Option<nat>)
    ensures r.Some? ==> r.value < |s| && s[r.value] == c
    ensures r.Some? ==> forall j :: 0 <= j < r.value ==> s[j] != c
    ensures r.None? ==> forall j :: 0 <= j < |s| ==> s[j] != c
  {
    if s == [] then None
    else if s[0] == c then Some(0)
    else
      match FindChar(s[1..], c)
      case Some(i) =>
        assert forall j :: 1 <= j <= i ==> s[j] == s[1..][j - 1];
        Some(i + 1)
      case None =>
        assert forall j :: 1 <= j < |s| ==> s[j] == s[1..][j - 1];
        None
  }

  /** The number of leading `"` (`trim_start_matches('"')`). */
  function LeadingQuotes(s: string): (k: nat)
    ensures k <= |s| && (forall i :: 0 <= i < k ==> s[i] == '"') && (k < |s| ==> s[k] != '"')
  {
    if s == [] || s[0] != '"' then 0 else 1 + LeadingQuotes(s[1..])
  }

  /** The index of the first `c`, or the length (`find(c).unwrap_or(len)`). */
  function CutAt(s: string, c: char): (k: nat)
    ensures k <= |s| && forall i :: 0 <= i < k ==> s[i] != c
  {
    match FindChar(s, c) case Some(e) => e case None => |s|
  }

  /** The ext-value form `filename*=UTF-8''<percent-encoded>` (section 3.2.1
      of RFC 5987, with only the two spellings of the charset the program
      accepts); `None` when the parameter is missing, has another charset or
      does not decode. */
  function ExtValue(header: string): Option<string> {
    match Find(header, "filename*=")
    case None => None
    case Some(pos) => ExtValueAfter(header[pos + 10..])
  }

  /** The ext-value from the text after `filename*=`. */
  function ExtValueAfter(rest: string): Option<string> {
    var stripped := match StripPrefix(rest, "UTF-8''") case Some(r) => Some(r) case None => StripPrefix(rest, "utf-8''");
    match stripped
    case None => None
    case Some(r) => ExtDecode(r)
  }

  /** The value runs to the first `;`, is trimmed and then percent-decoded. */
  function ExtDecode(r: string): Option<string> {
    Percent.Decode(Trim(r[..CutAt(r, ';')]))
  }

  /** The plain `filename=` form. */
  function PlainValue(header: string): Option<string> {
    match Find(header, "filename=")
    case None => None
    case Some(pos) => PlainValueAfter(header[pos + 9..])
  }

  /** The plain value from the text after `filename=`: leading quotes
      dropped, the value ends at the first `"`, else the first `;`, else the
      end, and is trimmed; an empty name is no name. */
  function PlainValueAfter(rest0: string): Option<string> {
    var rest := rest0[LeadingQuotes(rest0)..];
    var end := match FindChar(rest, '"') case Some(e) => e case None => CutAt(rest, ';');
    var name := Trim(rest[..end]);
    if name != [] then Some(name) else None
  }

  /** `parse_content_disposition` as written: an ext-value that decodes,
      even to the empty string, wins. */
  function ContentDispositionAsWritten(header: string): Option<string> {
    if ExtValue(header).Some? then ExtValue(header) else PlainValue(header)
  }

  /** `parse_content_disposition` with the empty ext-value rejected as the
      plain form rejects an empty name. */
  function ContentDisposition(header: string): (r: Option<string>)
    ensures r.Some? ==> r.value != []
  {
    if ExtValue(header).Some? && ExtValue(header).value != [] then ExtValue(header) else PlainValue(header)
  }

  /** As written, `filename*=UTF-8''` with nothing before the next `;` makes
      the empty string the file name, whatever a plain `filename=` says;
      the corrected parser falls back to the plain form. */
  lemma EmptyExtValueWins(header: string, pos: nat, tail: string)
    requires Find(header, "filename*=") == Some(pos)
    requires header[pos + 10..] == "UTF-8''" + tail && (tail == [] || tail[0] == ';')
    ensures ContentDispositionAsWritten(header) == Some([])
    ensures ContentDisposition(header) == PlainValue(header)
  {
    assert StripPrefix(header[pos + 10..], "UTF-8''") == Some(tail);
    if tail != [] {
      assert FindChar(tail, ';') == Some(0);
    }
    assert Trim(tail[..CutAt(tail, ';')]) == [];
    Percent.DecodePlain([]);
  }

  /** The ext-value wins when it decodes to a name; when it is missing or
      does not decode, the plain form decides. */
  lemma ContentDispositionPrecedence(header: string)
    ensures ExtValue(header).Some? && ExtValue(header).value != [] ==>
      ContentDisposition(header) == ExtValue(header)
    ensures ExtValue(header).None? ==> ContentDisposition(header) == PlainValue(header)
    ensures ExtValue(header).None? || ExtValue(header).value != [] ==>
      ContentDisposition(header) == ContentDispositionAsWritten(header)
  {
  }

  /** The ext-value text is cut at the first `;` and trimmed before it is
      decoded; without `%` escapes the name is that text itself, so it has
      no `;` and no white space at either end. */
  lemma ExtDecodePlainText(r: string)
    ensures var v := Trim(r[..CutAt(r, ';')]);
      (forall i :: 0 <= i < |v| ==> v[i] != '%') ==>
        ExtDecode(r) == Some(v) && Trimmed(v) && forall i :: 0 <= i < |v| ==> v[i] != ';'
  {
    var end := CutAt(r, ';');
    var v := Trim(r[..end]);
    TrimSpec(r[..end]);
    if forall i :: 0 <= i < |v| ==> v[i] != '%' {
      Percent.DecodePlain(v);
      var a := LeadingSpace(r[..end]);
      forall i | 0 <= i < |v| ensures v[i] != ';' {
        assert v[i] == r[..end][a + i] == r[a + i];
      }
    }
  }

  /** A plain name is non-empty, trimmed and free of `"`. */
  lemma PlainValueSpec(rest0: string)
    requires PlainValueAfter(rest0).Some?
    ensures var n := PlainValueAfter(rest0).value;
      && n != [] && Trimmed(n)
      && (forall i :: 0 <= i < |n| ==> n[i] != '"')
  {
    var rest := rest0[LeadingQuotes(rest0)..];
    var end := match FindChar(rest, '"') case Some(e) => e case None => CutAt(rest, ';');
    var n := Trim(rest[..end]);
    TrimSpec(rest[..end]);
    var a := LeadingSpace(rest[..end]);
    forall i | 0 <= i < |n| ensures n[i] != '"' {
      assert n[i] == rest[a + i];
    }
  }

  /** The last `/`-separated segment (`path.rsplit('/').next()`). */
  function LastSegment(path: string): (r: string)
    ensures |r| <= |path| && r == path[|path| - |r|..]
    ensures forall i :: 0 <= i < |r| ==> r[i] != '/'
    ensures |r| < |path| ==> path[|path| - |r| - 1] == '/'
  {
    if path == [] || path[|path| - 1] == '/' then []
    else LastSegment(path[..|path| - 1]) + [path[|path| - 1]]
  }

  /** `extract_filename`: the header name when there is one, else the
      decoded last segment of the URL path when it is not empty; sanitised
      either way. `cd` is the header's text, `None` when it is missing or is
      not visible ASCII. */
  function ExtractFilename(cd: Option<string>, url: string): Option<string> {
    if cd.Some? && ContentDispositionAsWritten(cd.value).Some? then Some(SanitizeFilename(ContentDispositionAsWritten(cd.value).value))
    else
      match Parse(url)
      case None => None
      case Some(u) =>
        var segment := LastSegment(u.path);
        if segment == [] then None
        else
          match Percent.Decode(segment)
          case None => None
          case Some(decoded) => Some(SanitizeFilename(decoded))
  }

  /** Where the derived name comes from; it never holds a forbidden
      character, so it never holds `/`. */
  lemma ExtractFilenameSpec(cd: Option<string>, url: string)
    ensures cd.Some? && ContentDispositionAsWritten(cd.value).Some? ==>
      ExtractFilename(cd, url) == Some(SanitizeFilename(ContentDispositionAsWritten(cd.value).value))
    ensures cd.Some? && ContentDispositionAsWritten(cd.value) == Some([]) ==> ExtractFilename(cd, url) == Some([])
    ensures !(cd.Some? && ContentDispositionAsWritten(cd.value).Some?) ==>
      (ExtractFilename(cd, url).Some? <==>
        Parse(url).Some? && LastSegment(Parse(url).value.path) != [] && Percent.Decode(LastSegment(Parse(url).value.path)).Some?)
    ensures !(cd.Some? && ContentDispositionAsWritten(cd.value).Some?) && ExtractFilename(cd, url).Some? ==>
      ExtractFilename(cd, url).value != []
    ensures ExtractFilename(cd, url).Some? ==>
      forall i :: 0 <= i < |ExtractFilename(cd, url).value| ==> !Forbidden(ExtractFilename(cd, url).value[i])
  {
    if ExtractFilename(cd, url).Some? {
      if cd.Some? && ContentDispositionAsWritten(cd.value).Some? {
        SanitizeFilenameSpec(ContentDispositionAsWritten(cd.value).value);
      } else {
        SanitizeFilenameSpec(Percent.Decode(LastSegment(Parse(url).value.path)).value);
      }
    }
  }

  /** A URL path ending in `/` gives no name. */
  lemma TrailingSlashNoName(url: string)
    requires Parse(url).Some? && var p := Parse(url).value.path; p[|p| - 1] == '/'
    ensures ExtractFilename(None, url).None?
  {
  }

  // ---------------------------------------------------------------------
  // Google Drive

  /** `is_google_drive_url` */
  predicate IsGoogleDriveUrl(url: string) {
    Contains(url, "drive.google.com") || Contains(url, "drive.usercontent.google.com")
  }

  /** `try_download` treats an HTML response as the virus-scan page only
      for a Google Drive URL. */
  predicate IsConfirmationPage(contentType: string, url: string) {
    Contains(contentType, "text/html") && IsGoogleDriveUrl(url)
  }

  lemma ContainsSelf(p: string)
    ensures Contains(p, p)
  {
    assert p[0..|p|] == p;
    ContainsAt(p, p, 0);
  }

  /** Every URL the Google Drive rule produces is recognised as one, so its
      HTML answer goes through the confirmation form. */
  lemma DriveUrlIsGoogleDrive(id: string)
    ensures IsGoogleDriveUrl(Resolve.DriveDownloadUrl(id))
  {
    var host := "drive.google.com";
    var tail := "/uc?export=download&id=" + id + "&confirm=t";
    assert Resolve.DriveDownloadUrl(id) == "https://" + host + tail by {
      assert "https://drive.google.com/uc?export=download&id=" == "https://" + host + "/uc?export=download&id=";
    }
    ContainsSelf(host);
    ContainsInfix("https://", host, tail, host);
  }

  /** A hidden input of the confirmation form: its `name` and `value`
      attributes. */
  datatype HiddenInput = HiddenInput(name: Option<string>, value: Option<string>)

  /** `form#download-form`: its `action` attribute and hidden inputs in
      document order. */
  datatype Form = Form(action: Option<string>, inputs: seq<HiddenInput>)

  /** The pairs the hidden inputs add, when every input has a name. */
  function InputPairs(inputs: seq<HiddenInput>): Option<seq<(string, string)>> {
    if inputs == [] then Some([])
    else if inputs[0].name.None? then None
    else
      match InputPairs(inputs[1..])
      case None => None
      case Some(rest) => Some([(inputs[0].name.value, inputs[0].value.GetOr(""))] + rest)
  }

  /** The outcome of `extract_gdrive_confirm_url` given the first form
      with id `download-form`, if any. */
  function ConfirmUrl(form: Option<Form>): Option<string> {
    if form.None? || form.value.action.None? then None
    else
      match Parse(form.value.action.value)
      case None => None
      case Some(u) =>
        match InputPairs(form.value.inputs)
        case None => None
        case Some(pairs) => Some(Show(u.(query := u.query + pairs)))
  }

  /** The input loop of `extract_gdrive_confirm_url`. */
  method AssembleConfirmUrl(form: Option<Form>) returns (r: Option<string>)
    ensures r == ConfirmUrl(form)
  {
    if form.None? || form.value.action.None? {
      return None;
    }
    var parsed := Parse(form.value.action.value);
    if parsed.None? {
      return None;
    }
    var url := AppendInputs(parsed.value, form.value.inputs);
    if url.None? {
      return None;
    }
    return Some(Show(url.value));
  }

  /** `append_pair` for every hidden input, or `None` at the first one
      without a name. */
  method AppendInputs(base: Url, inputs: seq<HiddenInput>) returns (r: Option<Url>)
    ensures InputPairs(inputs).None? ==> r.None?
    ensures InputPairs(inputs).Some? ==> r == Some(base.(query := base.query + InputPairs(inputs).value))
  {
    var url := base;
    ghost var added: seq<(string, string)> := [];
    assert inputs[0..] == inputs;
    assert InputPairs(inputs).Some? ==> added + InputPairs(inputs).value == InputPairs(inputs).value;
    for i := 0 to |inputs|
      invariant InputPairs(inputs[i..]).Some? ==> InputPairs(inputs) == Some(added + InputPairs(inputs[i..]).value)
      invariant InputPairs(inputs[i..]).None? ==> InputPairs(inputs).None?
      invariant url == base.(query := base.query + added)
    {
      var input := inputs[i];
      InputPairsStep(inputs, i, added);
      if input.name.None? {
        return None;
      }
      var pair := (input.name.value, input.value.GetOr(""));
      assert base.query + added + [pair] == base.query + (added + [pair]);
      url := url.(query := url.query + [pair]);
      added := added + [pair];
    }
    assert inputs[|inputs|..] == [] && added + [] == added;
    assert InputPairs(inputs) == Some(added);
    return Some(url);
  }

  /** One hidden input: a nameless one ends the loop with `None`, a named
      one moves its pair from the pairs still to come to those added. */
  lemma InputPairsStep(inputs: seq<HiddenInput>, i: nat, added: seq<(string, string)>)
    requires i < |inputs|
    requires InputPairs(inputs[i..]).Some? ==> InputPairs(inputs) == Some(added + InputPairs(inputs[i..]).value)
    requires InputPairs(inputs[i..]).None? ==> InputPairs(inputs).None?
    ensures inputs[i].name.None? ==> InputPairs(inputs).None?
    ensures inputs[i].name.Some? ==>
      var added' := added + [(inputs[i].name.value, inputs[i].value.GetOr(""))];
      && (InputPairs(inputs[i + 1..]).Some? ==> InputPairs(inputs) == Some(added' + InputPairs(inputs[i + 1..]).value))
      && (InputPairs(inputs[i + 1..]).None? ==> InputPairs(inputs).None?)
  {
    assert inputs[i..][1..] == inputs[i + 1..];
    if inputs[i].name.Some? && InputPairs(inputs[i + 1..]).Some? {
      var pair := (inputs[i].name.value, inputs[i].value.GetOr(""));
      assert added + ([pair] + InputPairs(inputs[i + 1..]).value) == added + [pair] + InputPairs(inputs[i + 1..]).value;
    }
  }

  /** The inputs' pairs in document order, a missing value read as "". */
  lemma {:induction false} InputPairsSpec(inputs: seq<HiddenInput>)
    ensures InputPairs(inputs).Some? <==> forall i :: 0 <= i < |inputs| ==> inputs[i].name.Some?
    ensures InputPairs(inputs).Some? ==>
      var ps := InputPairs(inputs).value;
      |ps| == |inputs| && forall i :: 0 <= i < |inputs| ==> ps[i] == (inputs[i].name.value, inputs[i].value.GetOr(""))
  {
    if inputs != [] {
      InputPairsSpec(inputs[1..]);
      assert forall i :: 1 <= i < |inputs| ==> inputs[i] == inputs[1..][i - 1];
    }
  }

  /** Reading the confirmation URL back gives the action's own pairs
      followed by one pair per hidden input, in document order (for names
      and values the query syntax can carry without escaping). */
  lemma ConfirmUrlQuery(form: Form)
    requires form.action.Some? && Parse(form.action.value).Some?
    requires forall i :: 0 <= i < |form.inputs| ==> form.inputs[i].name.Some?
    requires forall i :: 0 <= i < |form.inputs| ==>
      NoneOf(form.inputs[i].name.value, {'&', '='}) && NoneOf(form.inputs[i].value.GetOr(""), {'&'})
    ensures var u := Parse(form.action.value).value;
      && ConfirmUrl(Some(form)).Some?
      && Parse(ConfirmUrl(Some(form)).value) == Some(u.(query := u.query + InputPairs(form.inputs).value))
  {
    var u := Parse(form.action.value).value;
    InputPairsSpec(form.inputs);
    var v := u.(query := u.query + InputPairs(form.inputs).value);
    ParseWellFormed(form.action.value);
    assert PairsWellFormed(v.query) by {
      var ps := InputPairs(form.inputs).value;
      forall i | 0 <= i < |v.query| ensures NoneOf(v.query[i].0, {'&', '='}) && NoneOf(v.query[i].1, {'&'}) {
        if i >= |u.query| {
          assert v.query[i] == ps[i - |u.query|];
        }
      }
    }
    ParseShow(v);
  }

  // ---------------------------------------------------------------------
  // Retries

  /** The delay in seconds before attempt `attempt` (`1 << (2 * attempt)`
      for the second and third). */
  function RetryDelay(attempt: nat): nat {
    if attempt == 0 then 0 else Pow2(2 * attempt)
  }

  function Pow2(n: nat): nat {
    if n == 0 then 1 else 2 * Pow2(n - 1)
  }

  const Attempts: nat := 3

  /** One attempt: attempt number and state before, outcome and state
      after (an attempt writes to the file system). */
  type Attempt<!S, T> = (nat, S) -> (Result<T, string>, S)

  /** The retry loop of `download_file` from attempt `a` on: the outcome,
      the state after and the number of attempts made. */
  function RetryFrom<S, T>(step: Attempt<S, T>, a: nat, s: S): (Result<T, string>, S, nat)
    requires a < Attempts
    decreases Attempts - a
  {
    var (r, s1) := step(a, s);
    if r.Ok? || a == Attempts - 1 then (r, s1, a + 1) else RetryFrom(step, a + 1, s1)
  }

  function Retry<S, T>(step: Attempt<S, T>, s: S): (Result<T, string>, S, nat) {
    RetryFrom(step, 0, s)
  }

  /** The state before attempt `k` when every earlier attempt failed. */
  function Before<S, T>(step: Attempt<S, T>, s: S, k: nat): S
    decreases k
  {
    if k == 0 then s else step(k - 1, Before(step, s, k - 1)).1
  }

  /** The delays slept before attempts `1..n-1`. */
  function Delays(n: nat): (r: seq<nat>)
    ensures |r| == if n == 0 then 0 else n - 1
  {
    if n <= 1 then [] else Delays(n - 1) + [RetryDelay(n - 1)]
  }

  /** `download_file`; `delays` are the sleeps taken. */
  method DownloadWithRetry<S, T>(step: Attempt<S, T>, s: S) returns (r: Result<T, string>, s': S, delays: seq<nat>)
    ensures (r, s') == (Retry(step, s).0, Retry(step, s).1)
    ensures delays == Delays(Retry(step, s).2)
  {
    var lastError: Option<string> := None;
    delays := [];
    s' := s;
    for a := 0 to Attempts
      invariant a < Attempts ==> Retry(step, s) == RetryFrom(step, a, s')
      invariant a == Attempts ==> lastError.Some? && Retry(step, s) == (Err(lastError.value), s', Attempts)
      invariant delays == Delays(a)
    {
      if a > 0 {
        delays := delays + [RetryDelay(a)];
      }
      var (outcome, next) := step(a, s');
      s' := next;
      if outcome.Ok? {
        return outcome, s', delays;
      }
      lastError := Some(outcome.error);
    }
    return Err(lastError.value), s', delays;
  }

  /** From attempt `a` on, after `a` failures. */
  lemma {:induction false} RetryFromSpec<S, T>(step: Attempt<S, T>, s: S, a: nat)
    requires a < Attempts
    ensures var (r, s', n) := RetryFrom(step, a, Before(step, s, a));
      && a + 1 <= n <= Attempts
      && (forall k :: a <= k < n - 1 ==> step(k, Before(step, s, k)).0.Err?)
      && (r, s') == step(n - 1, Before(step, s, n - 1))
      && (n < Attempts ==> r.Ok?)
    decreases Attempts - a
  {
    var (r, s1) := step(a, Before(step, s, a));
    if !(r.Ok? || a == Attempts - 1) {
      assert Before(step, s, a + 1) == s1;
      RetryFromSpec(step, s, a + 1);
    }
  }

  /** At most three attempts; every attempt before the last one made
      failed, and the outcome is the last one's, so an error comes only
      after three failures and is the third one's; the waits are none, 4s,
      then 16s. */
  lemma RetrySpec<S, T>(step: Attempt<S, T>, s: S)
    ensures var (r, s', n) := Retry(step, s);
      && 1 <= n <= 3
      && (forall k :: 0 <= k < n - 1 ==> step(k, Before(step, s, k)).0.Err?)
      && (r, s') == step(n - 1, Before(step, s, n - 1))
      && (r.Err? ==> n == 3)
      && Delays(n) == [4, 16][..n - 1]
  {
    RetryFromSpec(step, s, 0);
    assert Pow2(2) == 4 && Pow2(4) == 16;
    assert Delays(2) == [4];
    assert Delays(3) == [4, 16];
  }

  // ---------------------------------------------------------------------
  // Saving a response

  /** What the program sees of a response: the final URL, the
      `Content-Disposition` text (`None` when missing or not visible
      ASCII), the `Content-Type` text (empty when missing) and the body. */
  datatype Response = Response(url: string, contentDisposition: Option<string>, contentType: string,
                               body: seq<Result<seq<byte>, string>>)

  datatype SaveError =
    | CreateTempFailed(IoError)     // "failed to create temp file"
    | BodyFailed(string)            // "error reading response body"
    | WriteFailed(IoError)
    | RenameFailed(IoError)
    | HtmlInsteadOfArchive          // "downloaded file is HTML, not an archive ..."

  /** The name `save_response` saves under. */
  function SaveName(resp: Response, fallback: string): string {
    ExtractFilename(resp.contentDisposition, resp.url).GetOr(fallback)
  }

  function DestPath(outputDir: Path, name: string): Path {
    Join(outputDir, FromText(name))
  }

  function TempPath(outputDir: Path, name: string): Path {
    Join(outputDir, FromText("." + name + ".tmp"))
  }

  /** Writing `data` at the end of the file at `p` through the handle
      `File::create` returned. */
  function AppendFile(fs: Fs, p: Path, data: seq<byte>): Result<Fs, IoError> {
    var a := Abs(fs, p);
    match Get(fs.root, a)
    case Some(File(prior)) => CreateFile(fs, p, prior + data)
    case Some(Dir(_)) => Err(IsADirectory)
    case None => Err(MissingKind(fs.root, a))
  }

  /** The body loop: the chunks written one after the other. */
  function WriteBody(fs: Fs, tmp: Path, body: seq<Result<seq<byte>, string>>): (Option<SaveError>, Fs)
    decreases |body|
  {
    if body == [] then (None, fs)
    else if body[0].Err? then (Some(BodyFailed(body[0].error)), fs)
    else
      match AppendFile(fs, tmp, body[0].value)
      case Err(e) => (Some(WriteFailed(e)), fs)
      case Ok(fs1) => WriteBody(fs1, tmp, body[1..])
  }

  /** The whole body when every chunk arrived. */
  function BodyBytes(body: seq<Result<seq<byte>, string>>): Option<seq<byte>> {
    if body == [] then Some([])
    else if body[0].Err? then None
    else
      match BodyBytes(body[1..])
      case None => None
      case Some(rest) => Some(body[0].value + rest)
  }

  /** Appending to an existing file always succeeds and touches nothing
      beside it. */
  lemma AppendFileEffect(fs: Fs, p: Path, data: seq<byte>, q: seq<string>)
    requires IsFile(fs, p) && Abs(fs, p) != []
    ensures AppendFile(fs, p, data).Ok?
    ensures var a := Abs(fs, p); var fs' := AppendFile(fs, p, data).value;
      && fs'.cwd == fs.cwd
      && Get(fs'.root, a) == Some(File(Get(fs.root, a).value.data + data))
      && (!Related(a, q) ==> Get(fs'.root, q) == Get(fs.root, q))
  {
    var a := Abs(fs, p);
    ParentIsDir(fs.root, a);
    CreateFileEffect(fs, p, Get(fs.root, a).value.data + data, q);
  }

  /** The body loop fails exactly at a chunk that did not arrive; otherwise
      the temporary file ends with the whole body. Nothing beside it
      changes, and the file stays either way. */
  lemma {:induction false} WriteBodyEffect(fs: Fs, tmp: Path, body: seq<Result<seq<byte>, string>>, q: seq<string>)
    requires IsFile(fs, tmp) && Abs(fs, tmp) != []
    ensures var (failure, fs') := WriteBody(fs, tmp, body); var a := Abs(fs, tmp);
      && fs'.cwd == fs.cwd
      && IsFileAt(fs'.root, a)
      && (failure.None? <==> BodyBytes(body).Some?)
      && (failure.Some? ==> failure.value.BodyFailed?)
      && (failure.None? ==> Get(fs'.root, a) == Some(File(Get(fs.root, a).value.data + BodyBytes(body).value)))
      && (!Related(a, q) ==> Get(fs'.root, q) == Get(fs.root, q))
    decreases |body|
  {
    if body != [] && body[0].Ok? {
      var a := Abs(fs, tmp);
      AppendFileEffect(fs, tmp, body[0].value, q);
      var fs1 := AppendFile(fs, tmp, body[0].value).value;
      WriteBodyEffect(fs1, tmp, body[1..], q);
      if BodyBytes(body[1..]).Some? {
        var d := Get(fs.root, a).value.data;
        assert d + body[0].value + BodyBytes(body[1..]).value == d + (body[0].value + BodyBytes(body[1..]).value);
      }
    } else if body == [] {
      assert Get(fs.root, Abs(fs, tmp)).value.data + [] == Get(fs.root, Abs(fs, tmp)).value.data;
    }
  }

  /** The temporary name is a name of its own, beside the file's. */
  lemma TempNameIsName(name: string)
    requires IsName(name)
    ensures IsName("." + name + ".tmp") && "." + name + ".tmp" != name
  {
    var t := "." + name + ".tmp";
    assert |t| == |name| + 5;
    forall i | 0 <= i < |t| ensures t[i] != '/' {
      if 1 <= i <= |name| {
        assert t[i] == name[i - 1];
      }
    }
  }

  /** Where the two paths of `save_response` land: side by side in the
      output directory. */
  lemma SavePaths(fs: Fs, outputDir: Path, name: string)
    requires outputDir != [] && IsName(name)
    ensures var d := Abs(fs, outputDir); var t := "." + name + ".tmp";
      && Abs(fs, DestPath(outputDir, name)) == d + [name]
      && Abs(fs, TempPath(outputDir, name)) == d + [t]
      && !Related(d + [name], d + [t])
  {
    TempNameIsName(name);
    var t := "." + name + ".tmp";
    FromTextName(name);
    FromTextName(t);
    assert [Normal(name)] == Normals([name]) && [Normal(t)] == Normals([t]);
    ResolveChild(fs.cwd, outputDir, [name]);
    ResolveChild(fs.cwd, outputDir, [t]);
    var d := Abs(fs, outputDir);
    assert (d + [name])[|d|] == name && (d + [t])[|d|] == t;
  }

  /** The outcome of `save_response` and the file system after it; `isHtml`
      stands for `archive::is_html` on the saved bytes. */
  function SaveOutcome(fs: Fs, outputDir: Path, resp: Response, fallback: string, isHtml: seq<byte> -> bool)
    : (Result<Path, SaveError>, Fs)
  {
    SaveAs(fs, outputDir, SaveName(resp, fallback), resp.body, isHtml)
  }

  /** Saving `body` under `name`: into `.{name}.tmp` first, then renamed. */
  function SaveAs(fs: Fs, outputDir: Path, name: string, body: seq<Result<seq<byte>, string>>, isHtml: seq<byte> -> bool)
    : (Result<Path, SaveError>, Fs)
  {
    var tmp := TempPath(outputDir, name);
    match CreateFile(fs, tmp, [])
    case Err(e) => (Err(CreateTempFailed(e)), fs)
    case Ok(fs1) =>
      var (failure, fs2) := WriteBody(fs1, tmp, body);
      if failure.Some? then (Err(failure.value), fs2)
      else Finish(fs2, outputDir, name, isHtml)
  }

  /** The rename into place and the check that the file is not a web page,
      which removes it again. */
  function Finish(fs: Fs, outputDir: Path, name: string, isHtml: seq<byte> -> bool): (Result<Path, SaveError>, Fs) {
    var dest := DestPath(outputDir, name);
    match Rename(fs, TempPath(outputDir, name), dest)
    case Err(e) => (Err(RenameFailed(e)), fs)
    case Ok(fs3) =>
      var saved := Get(fs3.root, Abs(fs3, dest));
      if saved.Some? && saved.value.File? && isHtml(saved.value.data) then
        (Err(HtmlInsteadOfArchive), match RemoveFile(fs3, dest) case Ok(fs4) => fs4 case Err(_) => fs3)
      else (Ok(dest), fs3)
  }

  /** The rename fails only when a directory has the file's name; then
      nothing changes. Otherwise the file is at its name and the temporary
      name is gone, and a web page is then removed as well. */
  lemma FinishEffect(fs: Fs, outputDir: Path, name: string, isHtml: seq<byte> -> bool, q: seq<string>)
    requires outputDir != [] && IsName(name)
    requires IsFileAt(fs.root, Abs(fs, outputDir) + ["." + name + ".tmp"])
    ensures var d := Abs(fs, outputDir); var t := d + ["." + name + ".tmp"]; var n := d + [name];
      var data := Get(fs.root, t).value.data; var (r, fs') := Finish(fs, outputDir, name, isHtml);
      && fs'.cwd == fs.cwd
      && (r == Err(RenameFailed(IsADirectory)) <==> IsDirAt(fs.root, n))
      && (r.Err? && r.error.RenameFailed? ==> r.error == RenameFailed(IsADirectory) && fs' == fs)
      && (r.Ok? <==> !IsDirAt(fs.root, n) && !isHtml(data))
      && (r.Ok? ==> r.value == DestPath(outputDir, name) && Get(fs'.root, n) == Some(File(data)))
      && (r == Err(HtmlInsteadOfArchive) ==> Get(fs'.root, n).None?)
      && (!IsDirAt(fs.root, n) ==> Get(fs'.root, t).None?)
      && (!Related(t, q) && !Related(n, q) ==> Get(fs'.root, q) == Get(fs.root, q))
  {
    var d := Abs(fs, outputDir);
    var t := d + ["." + name + ".tmp"];
    var n := d + [name];
    FinishRename(fs, outputDir, name);
    if !IsDirAt(fs.root, n) {
      MoveSibling(fs.root, t, n, q);
      FinishMoved(fs, outputDir, name, isHtml);
      var fs3 := fs.(root := Move(fs.root, t, n));
      if isHtml(Get(fs.root, t).value.data) {
        GetRemove(fs3.root, n, q);
        GetRemove(fs3.root, n, n);
        GetRemove(fs3.root, n, t);
      }
    }
  }

  /** `Finish` once the file could be moved to its name: a web page is
      removed again, anything else is the result. */
  lemma FinishMoved(fs: Fs, outputDir: Path, name: string, isHtml: seq<byte> -> bool)
    requires outputDir != [] && IsName(name)
    requires IsFileAt(fs.root, Abs(fs, outputDir) + ["." + name + ".tmp"])
    requires !IsDirAt(fs.root, Abs(fs, outputDir) + [name])
    ensures var d := Abs(fs, outputDir); var t := d + ["." + name + ".tmp"]; var n := d + [name];
      && !IsPrefix(t, n) && IsDirAt(fs.root, Init(n))
      && var fs3 := fs.(root := Move(fs.root, t, n));
      && Get(fs3.root, n).Some?
      && Finish(fs, outputDir, name, isHtml)
         == if isHtml(Get(fs.root, t).value.data) then (Err(HtmlInsteadOfArchive), fs3.(root := Remove(fs3.root, n)))
            else (Ok(DestPath(outputDir, name)), fs3)
  {
    var d := Abs(fs, outputDir);
    var t := d + ["." + name + ".tmp"];
    var n := d + [name];
    FinishRename(fs, outputDir, name);
    MoveSibling(fs.root, t, n, n);
  }

  /** The rename in `Finish`: onto a directory it fails, otherwise the file
      moves to its name. */
  lemma FinishRename(fs: Fs, outputDir: Path, name: string)
    requires outputDir != [] && IsName(name)
    requires IsFileAt(fs.root, Abs(fs, outputDir) + ["." + name + ".tmp"])
    ensures var d := Abs(fs, outputDir); var t := d + ["." + name + ".tmp"]; var n := d + [name];
      && Abs(fs, DestPath(outputDir, name)) == n
      && Init(t) == d && Init(n) == d && IsDirAt(fs.root, d)
      && !IsPrefix(t, n) && !IsPrefix(n, t)
      && Rename(fs, TempPath(outputDir, name), DestPath(outputDir, name))
         == if IsDirAt(fs.root, n) then Err(IsADirectory) else Ok(fs.(root := Move(fs.root, t, n)))
  {
    SavePaths(fs, outputDir, name);
    var d := Abs(fs, outputDir);
    var t := d + ["." + name + ".tmp"];
    var n := d + [name];
    assert Init(t) == d && Init(n) == d;
    RenameFile(fs, TempPath(outputDir, name), DestPath(outputDir, name));
  }

  /** What `save_response` leaves behind, by outcome: the temporary file
      cannot be created when the output directory is missing or a directory
      has its name; a body that breaks off leaves it behind, unfinished; the
      rename fails only onto a directory; a web page is removed after the
      rename; a success moves the whole body to the file's name. Nothing
      beside the two names is touched. */
  lemma SaveAsEffect(fs: Fs, outputDir: Path, name: string, body: seq<Result<seq<byte>, string>>,
                     isHtml: seq<byte> -> bool, q: seq<string>)
    requires outputDir != [] && IsName(name)
    ensures var d := Abs(fs, outputDir); var t := d + ["." + name + ".tmp"]; var n := d + [name];
      var (r, fs') := SaveAs(fs, outputDir, name, body, isHtml);
      var ready := IsDirAt(fs.root, d) && !IsDirAt(fs.root, t);
      && fs'.cwd == fs.cwd
      && (r.Err? && r.error.CreateTempFailed? <==> !ready)
      && (!ready ==> fs' == fs)
      && !(r.Err? && r.error.WriteFailed?)
      && (r.Err? && r.error.BodyFailed? <==> ready && BodyBytes(body).None?)
      && (r.Err? && r.error.BodyFailed? ==> IsFileAt(fs'.root, t) && Get(fs'.root, n) == Get(fs.root, n))
      && (r.Err? && r.error.RenameFailed? <==> ready && BodyBytes(body).Some? && IsDirAt(fs.root, n))
      && (r.Err? && r.error.RenameFailed? ==> IsFileAt(fs'.root, t) && Get(fs'.root, n) == Get(fs.root, n))
      && (r.Ok? <==> ready && BodyBytes(body).Some? && !IsDirAt(fs.root, n) && !isHtml(BodyBytes(body).value))
      && (r.Ok? ==> r.value == DestPath(outputDir, name)
                    && Get(fs'.root, n) == Some(File(BodyBytes(body).value)) && Get(fs'.root, t).None?)
      && (r == Err(HtmlInsteadOfArchive) ==> Get(fs'.root, n).None? && Get(fs'.root, t).None?)
      && (!Related(t, q) && !Related(n, q) ==> Get(fs'.root, q) == Get(fs.root, q))
  {
    SavePaths(fs, outputDir, name);
    var d := Abs(fs, outputDir);
    var t := d + ["." + name + ".tmp"];
    var tmp := TempPath(outputDir, name);
    assert Init(t) == d;
    if IsDirAt(fs.root, d) && !IsDirAt(fs.root, t) {
      TempWritten(fs, outputDir, name, body, q);
      var fs2 := WriteBody(CreateFile(fs, tmp, []).value, tmp, body).1;
      if BodyBytes(body).Some? {
        FinishEffect(fs2, outputDir, name, isHtml, q);
      }
    }
  }

  /** The temporary file after the body loop, when it could be created. */
  lemma TempWritten(fs: Fs, outputDir: Path, name: string, body: seq<Result<seq<byte>, string>>, q: seq<string>)
    requires outputDir != [] && IsName(name)
    requires var d := Abs(fs, outputDir); IsDirAt(fs.root, d) && !IsDirAt(fs.root, d + ["." + name + ".tmp"])
    ensures var d := Abs(fs, outputDir); var t := d + ["." + name + ".tmp"]; var n := d + [name];
      var tmp := TempPath(outputDir, name);
      && CreateFile(fs, tmp, []).Ok?
      && var (failure, fs2) := WriteBody(CreateFile(fs, tmp, []).value, tmp, body);
      && fs2.cwd == fs.cwd
      && IsFileAt(fs2.root, t)
      && (failure.None? <==> BodyBytes(body).Some?)
      && (failure.Some? ==> failure.value.BodyFailed?)
      && (failure.None? ==> Get(fs2.root, t) == Some(File(BodyBytes(body).value)))
      && Get(fs2.root, n) == Get(fs.root, n)
      && (!Related(t, q) ==> Get(fs2.root, q) == Get(fs.root, q))
  {
    SavePaths(fs, outputDir, name);
    var d := Abs(fs, outputDir);
    var t := d + ["." + name + ".tmp"];
    var n := d + [name];
    var tmp := TempPath(outputDir, name);
    assert Init(t) == d;
    var fs1 := CreateFile(fs, tmp, []).value;
    CreateFileEffect(fs, tmp, [], q);
    CreateFileEffect(fs, tmp, [], n);
    WriteBodyEffect(fs1, tmp, body, q);
    WriteBodyEffect(fs1, tmp, body, n);
    if BodyBytes(body).Some? {
      assert [] + BodyBytes(body).value == BodyBytes(body).value;
    }
  }

  /** `extract_filename` over the corrected header parser. */
  function ExtractFilenameCorrected(cd: Option<string>, url: string): Option<string> {
    if cd.Some? && ContentDisposition(cd.value).Some? then Some(SanitizeFilename(ContentDisposition(cd.value).value))
    else ExtractFilename(None, url)
  }

  /** The corrected name differs from the one as written only for a header
      whose ext-value is empty, and it is never the empty name. */
  lemma ExtractFilenameCorrectedSpec(cd: Option<string>, url: string)
    ensures ExtractFilenameCorrected(cd, url) != ExtractFilename(cd, url) ==>
      cd.Some? && ContentDispositionAsWritten(cd.value) == Some([])
    ensures ExtractFilenameCorrected(cd, url).Some? ==> ExtractFilenameCorrected(cd, url).value != []
  {
    ExtractFilenameSpec(None, url);
    if cd.Some? && !(ContentDispositionAsWritten(cd.value) == Some([])) {
      ContentDispositionPrecedence(cd.value);
    }
  }

  /** With the parser as written, a header whose ext-value is empty names
      the file "" (see `SaveEmptyName` for what follows); the corrected
      parser takes the plain name instead. */
  lemma EmptyExtValueNamesNothing(header: string, pos: nat, tail: string, url: string)
    requires Find(header, "filename*=") == Some(pos)
    requires header[pos + 10..] == "UTF-8''" + tail && (tail == [] || tail[0] == ';')
    ensures ExtractFilename(Some(header), url) == Some("")
    ensures PlainValue(header).Some? ==>
      ExtractFilenameCorrected(Some(header), url) == Some(SanitizeFilename(PlainValue(header).value))
    ensures PlainValue(header).None? ==> ExtractFilenameCorrected(Some(header), url) == ExtractFilename(None, url)
  {
    EmptyExtValueWins(header, pos, tail);
    assert SanitizeFilename("") == "";
  }

  lemma EmptyTempName(outputDir: Path)
    requires outputDir != []
    ensures "." + "" + ".tmp" == "..tmp" && IsName("..tmp") && DestPath(outputDir, "") == outputDir
  {
    assert "." + "" == "." && "." + ".tmp" == "..tmp";
    assert |"..tmp"| == 5 && "..tmp"[2] == 't';
    assert FromText("") == [];
  }

  /** Saving under "" cannot succeed: the file's path is the output
      directory itself, and the rename of `..tmp` onto the directory that
      holds it fails, leaving `..tmp` behind. */
  lemma SaveEmptyName(fs: Fs, outputDir: Path, body: seq<Result<seq<byte>, string>>, isHtml: seq<byte> -> bool)
    requires outputDir != [] && Abs(fs, outputDir) != [] && IsDir(fs, outputDir)
    requires !IsDirAt(fs.root, Abs(fs, outputDir) + ["..tmp"]) && BodyBytes(body).Some?
    ensures var (r, fs') := SaveAs(fs, outputDir, "", body, isHtml);
      && r.Err? && r.error.RenameFailed?
      && IsFileAt(fs'.root, Abs(fs, outputDir) + ["..tmp"])
  {
    EmptyTempName(outputDir);
    SaveOntoOutputDir(fs, outputDir, "", body, isHtml);
  }

  /** A name that adds no component puts the file on the output directory
      itself. */
  lemma SaveOntoOutputDir(fs: Fs, outputDir: Path, name: string, body: seq<Result<seq<byte>, string>>,
                          isHtml: seq<byte> -> bool)
    requires outputDir != [] && Abs(fs, outputDir) != [] && IsDir(fs, outputDir)
    requires DestPath(outputDir, name) == outputDir && IsName("." + name + ".tmp")
    requires !IsDirAt(fs.root, Abs(fs, outputDir) + ["." + name + ".tmp"]) && BodyBytes(body).Some?
    ensures var (r, fs') := SaveAs(fs, outputDir, name, body, isHtml);
      && r.Err? && r.error.RenameFailed?
      && IsFileAt(fs'.root, Abs(fs, outputDir) + ["." + name + ".tmp"])
  {
    var tn := "." + name + ".tmp";
    var d := Abs(fs, outputDir);
    var t := d + [tn];
    FromTextName(tn);
    assert [Normal(tn)] == Normals([tn]);
    ResolveChild(fs.cwd, outputDir, [tn]);
    var tmp := TempPath(outputDir, name);
    assert Abs(fs, tmp) == t && Init(t) == d;
    var fs1 := CreateFile(fs, tmp, []).value;
    CreateFileEffect(fs, tmp, [], t);
    WriteBodyEffect(fs1, tmp, body, t);
    var fs2 := WriteBody(fs1, tmp, body).1;
    RenameOntoParent(fs2, tmp, DestPath(outputDir, name));
  }

  /** `save_response` */
  method SaveResponse(fs: Fs, outputDir: Path, resp: Response, fallback: string, isHtml: seq<byte> -> bool)
    returns (r: Result<Path, SaveError>, fs': Fs)
    ensures (r, fs') == SaveOutcome(fs, outputDir, resp, fallback, isHtml)
  {
    var name := SaveName(resp, fallback);
    var dest := DestPath(outputDir, name);
    var tmp := TempPath(outputDir, name);
    var created := CreateFile(fs, tmp, []);
    if created.Err? {
      return Err(CreateTempFailed(created.error)), fs;
    }
    fs' := created.value;
    var i := 0;
    while i < |resp.body|
      invariant 0 <= i <= |resp.body|
      invariant WriteBody(created.value, tmp, resp.body) == WriteBody(fs', tmp, resp.body[i..])
    {
      assert resp.body[i..][1..] == resp.body[i + 1..];
      var chunk := resp.body[i];
      if chunk.Err? {
        return Err(BodyFailed(chunk.error)), fs';
      }
      var written := AppendFile(fs', tmp, chunk.value);
      if written.Err? {
        return Err(WriteFailed(written.error)), fs';
      }
      fs' := written.value;
      i := i + 1;
    }
    assert resp.body[i..] == [];
    var renamed := Rename(fs', tmp, dest);
    if renamed.Err? {
      return Err(RenameFailed(renamed.error)), fs';
    }
    fs' := renamed.value;
    var saved := Get(fs'.root, Abs(fs', dest));
    if saved.Some? && saved.value.File? && isHtml(saved.value.data) {
      var removed := RemoveFile(fs', dest);
      if removed.Ok? {
        fs' := removed.value;
      }
      return Err(HtmlInsteadOfArchive), fs';
    }
    return Ok(dest), fs';
  }

  // ---------------------------------------------------------------------
  // One attempt

  /** What the network answers: the response to a request for `url` in
      attempt `n` (or the transport or status error), and the confirmation
      form of an HTML body (or the error reading the body). */
  datatype Http = Http(get: (nat, string) -> Result<Response, string>,
                       confirmForm: Response -> Result<Option<Form>, string>)

  const NoConfirmUrl: string := "Google Drive returned HTML confirmation page but could not extract download URL"

  /** The text of a `save_response` error: a context message hides its
      cause. */
  function SaveErrorText(e: SaveError): string {
    match e
    case CreateTempFailed(_) => "failed to create temp file"
    case BodyFailed(_) => "error reading response body"
    case WriteFailed(io) => IoMessage(io)
    case RenameFailed(io) => IoMessage(io)
    case HtmlInsteadOfArchive => "downloaded file is HTML, not an archive (possible redirect or error page)"
  }

  function Saved(fs: Fs, outputDir: Path, resp: Response, fallback: string, isHtml: seq<byte> -> bool): (Result<Path, string>, Fs) {
    var (r, fs') := SaveOutcome(fs, outputDir, resp, fallback, isHtml);
    match r
    case Ok(p) => (Ok(p), fs')
    case Err(e) => (Err(SaveErrorText(e)), fs')
  }

  /** `try_download` in attempt `n`. */
  function TryDownload(fs: Fs, http: Http, n: nat, url: string, outputDir: Path, fallback: string, isHtml: seq<byte> -> bool)
    : (Result<Path, string>, Fs)
  {
    match http.get(n, url)
    case Err(e) => (Err(e), fs)
    case Ok(resp) =>
      if IsConfirmationPage(resp.contentType, url) then
        match http.confirmForm(resp)
        case Err(e) => (Err(e), fs)
        case Ok(form) =>
          match ConfirmUrl(form)
          case None => (Err(NoConfirmUrl), fs)
          case Some(confirm) =>
            match http.get(n, confirm)
            case Err(e) => (Err(e), fs)
            case Ok(resp2) => Saved(fs, outputDir, resp2, fallback, isHtml)
      else Saved(fs, outputDir, resp, fallback, isHtml)
  }

  /** A Google Drive answer in HTML is never saved: the confirmation URL's
      answer is, or nothing changes. Any other answer is saved as it is. */
  lemma TryDownloadSpec(fs: Fs, http: Http, n: nat, url: string, outputDir: Path, fallback: string, isHtml: seq<byte> -> bool)
    requires http.get(n, url).Ok?
    ensures var resp := http.get(n, url).value; var out := TryDownload(fs, http, n, url, outputDir, fallback, isHtml);
      && (!IsConfirmationPage(resp.contentType, url) ==> out == Saved(fs, outputDir, resp, fallback, isHtml))
      && (IsConfirmationPage(resp.contentType, url) ==>
            if http.confirmForm(resp).Ok? && ConfirmUrl(http.confirmForm(resp).value).Some?
               && http.get(n, ConfirmUrl(http.confirmForm(resp).value).value).Ok?
            then out == Saved(fs, outputDir, http.get(n, ConfirmUrl(http.confirmForm(resp).value).value).value, fallback, isHtml)
            else out.0.Err? && out.1 == fs)
    ensures IsConfirmationPage(http.get(n, url).value.contentType, url) && http.confirmForm(http.get(n, url).value) == Ok(None) ==>
      TryDownload(fs, http, n, url, outputDir, fallback, isHtml) == (Err(NoConfirmUrl), fs)
  {
  }

  /** The attempt function `download_file` retries. */
  function AttemptOf(http: Http, url: string, outputDir: Path, fallback: string, isHtml: seq<byte> -> bool): Attempt<Fs, Path> {
    (n: nat, fs: Fs) => TryDownload(fs, http, n, url, outputDir, fallback, isHtml)
  }

  // ---------------------------------------------------------------------
  // Tasks

  /** `DownloadTask` */
  datatype Task = Task(url: string, outputDir: Path, fallbackName: string, progressLabel: string)

  /** `DownloadResult` */
  datatype Outcome =
    | Success(path: Path)
    | Skipped(url: string, reason: string)
    | Failed(url: string, error: string)

  /** Everything outside the program a task meets: the web pages resolution
      reads, the download server, the HTML test and which joins fail. */
  datatype Env = Env(web: Resolve.Web, http: Http, isHtml: seq<byte> -> bool, joinError: nat -> Option<string>)

  const UnknownUrl: string := "unknown"

  /** The outcome of task `task` and the file system after it. */
  function TaskOutcome(fs: Fs, task: Task, env: Env): (Outcome, Fs) {
    match Resolve.Resolution(task.url, env.web)
    case Err(e) => (Skipped(task.url, e), fs)
    case Ok(resolved) =>
      match CreateDirAll(fs, task.outputDir)
      case Err(e) => (Failed(task.url, IoMessage(e)), fs)
      case Ok(fs1) =>
        var (r, fs2, _) := Retry(AttemptOf(env.http, resolved.url, task.outputDir, task.fallbackName, env.isHtml), fs1);
        match r
        case Ok(p) => (Success(p), fs2)
        case Err(e) => (Failed(task.url, e), fs2)
  }

  /** The body of one spawned task. */
  method RunTask(fs: Fs, task: Task, env: Env) returns (o: Outcome, fs': Fs)
    ensures (o, fs') == TaskOutcome(fs, task, env)
  {
    var resolved := Resolve.ResolveUrl(task.url, env.web);
    if resolved.Err? {
      return Skipped(task.url, resolved.error), fs;
    }
    var created := CreateDirAll(fs, task.outputDir);
    if created.Err? {
      return Failed(task.url, IoMessage(created.error)), fs;
    }
    var r, fs2, delays := DownloadWithRetry(AttemptOf(env.http, resolved.value.url, task.outputDir, task.fallbackName, env.isHtml), created.value);
    if r.Ok? {
      return Success(r.value), fs2;
    }
    return Failed(task.url, r.error), fs2;
  }

  /** A task whose URL does not resolve is skipped with the resolver's error
      and never reaches the file system or the download server. */
  lemma SkippedWithoutDownload(fs: Fs, task: Task, env: Env, http: Http)
    requires Resolve.Resolution(task.url, env.web).Err?
    ensures TaskOutcome(fs, task, env) == (Skipped(task.url, Resolve.Resolution(task.url, env.web).error), fs)
    ensures TaskOutcome(fs, task, env) == TaskOutcome(fs, task, env.(http := http))
  {
  }

  /** Every outcome belongs to its task: a skipped one exactly when the URL
      does not resolve, a failure that names the task's URL when the
      directory cannot be made or every attempt fails, a success with the
      path the last attempt saved to. */
  lemma TaskOutcomeSpec(fs: Fs, task: Task, env: Env)
    ensures var (o, fs') := TaskOutcome(fs, task, env);
      && (o.Skipped? <==> Resolve.Resolution(task.url, env.web).Err?)
      && (o.Skipped? ==> o.url == task.url && fs' == fs)
      && (o.Failed? ==> o.url == task.url)
      && (Resolve.Resolution(task.url, env.web).Ok? && CreateDirAll(fs, task.outputDir).Err? ==>
            o == Failed(task.url, IoMessage(CreateDirAll(fs, task.outputDir).error)) && fs' == fs)
      && (Resolve.Resolution(task.url, env.web).Ok? && CreateDirAll(fs, task.outputDir).Ok? ==>
            var step := AttemptOf(env.http, Resolve.Resolution(task.url, env.web).value.url, task.outputDir, task.fallbackName, env.isHtml);
            var (r, _, n) := Retry(step, CreateDirAll(fs, task.outputDir).value);
            (o.Success? <==> r.Ok?) && (r.Ok? ==> o.path == r.value) && (r.Err? ==> o.error == r.error && n == 3))
  {
    if Resolve.Resolution(task.url, env.web).Ok? && CreateDirAll(fs, task.outputDir).Ok? {
      var step := AttemptOf(env.http, Resolve.Resolution(task.url, env.web).value.url, task.outputDir, task.fallbackName, env.isHtml);
      RetrySpec(step, CreateDirAll(fs, task.outputDir).value);
    }
  }

  /** The tasks run one after another, each on the file system the one
      before left. */
  function RunAll(fs: Fs, tasks: seq<Task>, env: Env): (r: (seq<Outcome>, Fs))
    ensures |r.0| == |tasks|
    decreases |tasks|
  {
    if tasks == [] then ([], fs)
    else
      var first := TaskOutcome(fs, tasks[0], env);
      var rest := RunAll(first.1, tasks[1..], env);
      ([first.0] + rest.0, rest.1)
  }

  /** The file system before task `i` runs. */
  function StateBefore(fs: Fs, tasks: seq<Task>, env: Env, i: nat): Fs
    requires i <= |tasks|
  {
    RunAll(fs, tasks[..i], env).1
  }

  /** The outcome the join loop records for handle `i`. */
  function Joined(i: nat, o: Outcome, joinError: nat -> Option<string>): Outcome {
    match joinError(i)
    case Some(e) => Failed(UnknownUrl, "task panicked: " + e)
    case None => o
  }

  /** `execute_downloads`: every task is spawned in order, then every
      handle is joined in order. */
  method ExecuteDownloads(fs: Fs, tasks: seq<Task>, env: Env) returns (results: seq<Outcome>, fs': Fs)
    ensures |results| == |tasks|
    ensures forall i :: 0 <= i < |tasks| ==> results[i] == Joined(i, RunAll(fs, tasks, env).0[i], env.joinError)
    ensures fs' == RunAll(fs, tasks, env).1
  {
    var handles;
    handles, fs' := SpawnAll(fs, tasks, env);
    results := JoinAll(handles, env.joinError);
  }

  /** The spawn loop: one handle per task, in order. */
  method SpawnAll(fs: Fs, tasks: seq<Task>, env: Env) returns (handles: seq<Outcome>, fs': Fs)
    ensures (handles, fs') == RunAll(fs, tasks, env)
  {
    handles := [];
    fs' := fs;
    assert tasks[0..] == tasks && handles + RunAll(fs, tasks, env).0 == RunAll(fs, tasks, env).0;
    for i := 0 to |tasks|
      invariant RunAll(fs, tasks, env).0 == handles + RunAll(fs', tasks[i..], env).0
      invariant RunAll(fs, tasks, env).1 == RunAll(fs', tasks[i..], env).1
    {
      RunAllStep(fs', tasks, env, i);
      var o, next := RunTask(fs', tasks[i], env);
      assert handles + ([o] + RunAll(next, tasks[i + 1..], env).0) == (handles + [o]) + RunAll(next, tasks[i + 1..], env).0;
      handles := handles + [o];
      fs' := next;
    }
    assert tasks[|tasks|..] == [] && handles + [] == handles;
  }

  /** The join loop: a handle that cannot be joined counts as a failure. */
  method JoinAll(handles: seq<Outcome>, joinError: nat -> Option<string>) returns (results: seq<Outcome>)
    ensures |results| == |handles|
    ensures forall i :: 0 <= i < |handles| ==> results[i] == Joined(i, handles[i], joinError)
  {
    results := [];
    for i := 0 to |handles|
      invariant |results| == i
      invariant forall j :: 0 <= j < i ==> results[j] == Joined(j, handles[j], joinError)
    {
      var joined := joinError(i);
      if joined.Some? {
        results := results + [Failed(UnknownUrl, "task panicked: " + joined.value)];
      } else {
        results := results + [handles[i]];
      }
    }
  }

  lemma RunAllStep(fs: Fs, tasks: seq<Task>, env: Env, i: nat)
    requires i < |tasks|
    ensures var first := TaskOutcome(fs, tasks[i], env);
      && RunAll(fs, tasks[i..], env).0 == [first.0] + RunAll(first.1, tasks[i + 1..], env).0
      && RunAll(fs, tasks[i..], env).1 == RunAll(first.1, tasks[i + 1..], env).1
  {
    assert tasks[i..][0] == tasks[i] && tasks[i..][1..] == tasks[i + 1..];
  }

  /** One outcome per task, in task order: the task's own outcome on the
      file system the tasks before it left, or a failure for an unknown URL
      when its handle could not be joined. */
  lemma {:induction false} RunAllSpec(fs: Fs, tasks: seq<Task>, env: Env, i: nat)
    requires i < |tasks|
    ensures RunAll(fs, tasks, env).0[i] == TaskOutcome(StateBefore(fs, tasks, env, i), tasks[i], env).0
    decreases i
  {
    var fs1 := TaskOutcome(fs, tasks[0], env).1;
    if i > 0 {
      var rest := tasks[1..];
      RunAllSpec(fs1, rest, env, i - 1);
      StateBeforeStep(fs, tasks, env, i);
      RunAllShift(fs, tasks, env, i);
      assert rest[i - 1] == tasks[i];
    } else {
      assert tasks[..0] == [];
    }
  }

  /** The state before task `i` is the state before task `i - 1` of the
      tasks after the first, started from the first one's state. */
  lemma StateBeforeStep(fs: Fs, tasks: seq<Task>, env: Env, i: nat)
    requires 0 < i <= |tasks|
    ensures StateBefore(fs, tasks, env, i) == StateBefore(TaskOutcome(fs, tasks[0], env).1, tasks[1..], env, i - 1)
  {
    assert tasks[1..][..i - 1] == tasks[..i][1..] && tasks[..i][0] == tasks[0];
  }

  lemma RunAllShift(fs: Fs, tasks: seq<Task>, env: Env, i: nat)
    requires 0 < i < |tasks|
    ensures RunAll(fs, tasks, env).0[i] == RunAll(TaskOutcome(fs, tasks[0], env).1, tasks[1..], env).0[i - 1]
  {
  }
}
