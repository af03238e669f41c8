/** The driver of the downloader: the directory name each table entry gets,
    the grouping of entries by that name, the level filter, the download
    tasks made for each group, the tally of the download outcomes, and the
    step that unpacks a downloaded archive into its entry directory. */
module Program {
  import opened Wrappers
  import opened Text
  import opened Paths
  import opened Fs
  import Download
  import Archive
  import Normalize

  /** A row of the difficulty table, with the fields the driver reads. */
  datatype SongEntry = SongEntry(title: Option<string>, url: Option<string>, urlDiff: Option<string>, level: Option<string>)

  // ---------------------------------------------------------------------
  // Directory names (`sanitize_dir_name`, `make_dir_name`)

  /** The ten characters a directory name may not hold. */
  predicate Forbidden(c: char) {
    c == '/' || c == '\\' || c == ':' || c == '*' || c == '?' || c == '"'
    || c == '<' || c == '>' || c == '|' || c == '\0'
  }

  function SanitizeDirChar(c: char): char {
    if Forbidden(c) then '_' else c
  }

  /** Every forbidden character of `name` replaced by `_`. */
  function ReplaceForbidden(name: string): (r: string)
    ensures |r| == |name|
    ensures forall i :: 0 <= i < |name| ==> r[i] == SanitizeDirChar(name[i])
  {
    seq(|name|, i requires 0 <= i < |name| => SanitizeDirChar(name[i]))
  }

  /** `sanitize_dir_name` */
  function SanitizeDirName(name: string): string {
    Trim(ReplaceForbidden(name))
  }

  predicate NoForbidden(s: string) {
    forall i :: 0 <= i < |s| ==> !Forbidden(s[i])
  }

  /** A sanitized name holds no forbidden character and no white space at
      either end; it is what is left of the name, with the forbidden
      characters turned into `_`, once the white space at both ends is cut
      off. */
  lemma SanitizeDirNameSpec(name: string)
    ensures var r := SanitizeDirName(name); var k := LeadingSpace(ReplaceForbidden(name));
      && NoForbidden(r) && Trimmed(r)
      && k + |r| <= |name|
      && (forall i :: 0 <= i < |r| ==> r[i] == SanitizeDirChar(name[k + i]))
      && (forall i :: 0 <= i < k ==> IsWhitespace(name[i]))
      && (forall i :: k + |r| <= i < |name| ==> IsWhitespace(name[i]))
  {
    var m := ReplaceForbidden(name);
    TrimSpec(m);
    var k := LeadingSpace(m);
    var r := Trim(m);
    forall i | 0 <= i < |r| ensures !Forbidden(r[i]) && r[i] == SanitizeDirChar(name[k + i]) {
      assert r[i] == m[k + i];
    }
    forall i | 0 <= i < |name| && IsWhitespace(m[i]) ensures IsWhitespace(name[i]) {
      assert m[i] == SanitizeDirChar(name[i]);
    }
  }

  /** A name that is already clean is kept, so sanitizing twice changes
      nothing more than sanitizing once. */
  lemma SanitizeDirNameIdempotent(name: string)
    ensures NoForbidden(name) && Trimmed(name) ==> SanitizeDirName(name) == name
    ensures SanitizeDirName(SanitizeDirName(name)) == SanitizeDirName(name)
  {
    CleanKept(name);
    SanitizeDirNameSpec(name);
    CleanKept(SanitizeDirName(name));
  }

  lemma CleanKept(name: string)
    ensures NoForbidden(name) && Trimmed(name) ==> SanitizeDirName(name) == name
  {
    if NoForbidden(name) && Trimmed(name) {
      assert ReplaceForbidden(name) == name;
      TrimOfTrimmed(name);
    }
  }

  /** `make_dir_name`: `{symbol}{level}_{title}`, sanitized, with `_` for a
      missing level and `unknown` for a missing title. */
  function MakeDirName(entry: SongEntry, symbol: string): string {
    SanitizeDirName(symbol + entry.level.GetOr("_") + "_" + entry.title.GetOr("unknown"))
  }

  /** When the pieces are clean already, the directory name is exactly
      symbol, level, `_` and title in a row. */
  lemma MakeDirNameSpec(entry: SongEntry, symbol: string)
    ensures var level := entry.level.GetOr("_"); var title := entry.title.GetOr("unknown");
      var name := symbol + level + "_" + title;
      NoForbidden(symbol) && NoForbidden(level) && NoForbidden(title) && Trimmed(name) ==>
        MakeDirName(entry, symbol) == name
    ensures entry.level.None? && entry.title.None? && NoForbidden(symbol) && Trimmed(symbol) && symbol != [] ==>
        MakeDirName(entry, symbol) == symbol + "__unknown"
  {
    var level := entry.level.GetOr("_");
    var title := entry.title.GetOr("unknown");
    var name := symbol + level + "_" + title;
    if NoForbidden(symbol) && NoForbidden(level) && NoForbidden(title) {
      assert NoForbidden(name) by {
        forall i | 0 <= i < |name| ensures !Forbidden(name[i]) {
          if i < |symbol| {
            assert name[i] == symbol[i];
          } else if i < |symbol| + |level| {
            assert name[i] == level[i - |symbol|];
          } else if i > |symbol| + |level| {
            assert name[i] == title[i - |symbol| - |level| - 1];
          }
        }
      }
      CleanKept(name);
    }
    var plain := symbol + "__unknown";
    if entry.level.None? && entry.title.None? && NoForbidden(symbol) && Trimmed(symbol) && symbol != [] {
      assert name == plain;
      assert NoForbidden(plain) by {
        forall i | 0 <= i < |plain| ensures !Forbidden(plain[i]) {
          if i < |symbol| {
            assert plain[i] == symbol[i];
          }
        }
      }
      assert plain[0] == symbol[0] && plain[|plain| - 1] == 'n';
      CleanKept(plain);
    }
  }

  // ---------------------------------------------------------------------
  // The level filter

  predicate HasLevel(e: SongEntry, level: Option<string>) {
    level.None? || e.level == level
  }

  /** The entries kept by the `--level` option, in table order. */
  function FilterLevel(entries: seq<SongEntry>, level: Option<string>): (r: seq<SongEntry>)
    decreases |entries|
  {
    if entries == [] then []
    else (if HasLevel(entries[0], level) then [entries[0]] else []) + FilterLevel(entries[1..], level)
  }

  /** With a level, exactly the entries of that level are kept, each as
      often as it occurs; without one, all entries are kept as they are. */
  lemma {:induction false} FilterLevelSpec(entries: seq<SongEntry>, level: Option<string>)
    ensures level.None? ==> FilterLevel(entries, level) == entries
    ensures forall e :: multiset(FilterLevel(entries, level))[e] == (if HasLevel(e, level) then multiset(entries)[e] else 0)
    decreases |entries|
  {
    if entries != [] {
      FilterLevelSpec(entries[1..], level);
      assert entries == [entries[0]] + entries[1..];
    }
  }

  /** Filtering works piece by piece, so the kept entries keep their
      table order. */
  lemma {:induction false} FilterLevelAppend(a: seq<SongEntry>, b: seq<SongEntry>, level: Option<string>)
    ensures FilterLevel(a + b, level) == FilterLevel(a, level) + FilterLevel(b, level)
    decreases |a|
  {
    if a == [] {
      assert a + b == b;
    } else {
      assert (a + b)[0] == a[0] && (a + b)[1..] == a[1..] + b;
      FilterLevelAppend(a[1..], b, level);
    }
  }

  // ---------------------------------------------------------------------
  // Grouping (`group_entries`)

  /** `EntryGroup`: the download of a song and the extra charts for it. */
  datatype EntryGroup = EntryGroup(baseUrl: Option<string>, diffUrls: seq<string>)

  /** An optional text that is there and not empty. */
  function NonEmpty(o: Option<string>): Option<string> {
    if o.Some? && o.value != "" then o else None
  }

  /** The directory name of each entry, for the table symbol `symbol`. */
  function DirNameOf(symbol: string): SongEntry -> string {
    e => MakeDirName(e, symbol)
  }

  /** The entries of `entries` whose directory name is `key`, in order. */
  function Members(entries: seq<SongEntry>, name: SongEntry -> string, key: string): seq<SongEntry>
    decreases |entries|
  {
    if entries == [] then []
    else
      var init := entries[..|entries| - 1];
      var e := entries[|entries| - 1];
      Members(init, name, key) + (if name(e) == key then [e] else [])
  }

  /** The first non-empty `url` among `ms`. */
  function FirstUrl(ms: seq<SongEntry>): Option<string>
    decreases |ms|
  {
    if ms == [] then None
    else if NonEmpty(ms[0].url).Some? then ms[0].url
    else FirstUrl(ms[1..])
  }

  /** The non-empty `url_diff` values of `ms`, in order. */
  function DiffValues(ms: seq<SongEntry>): seq<string>
    decreases |ms|
  {
    if ms == [] then []
    else
      var e := ms[|ms| - 1];
      DiffValues(ms[..|ms| - 1]) + (if NonEmpty(e.urlDiff).Some? then [e.urlDiff.value] else [])
  }

  /** `xs` without its repetitions, each value where it first appears. */
  function Dedup(xs: seq<string>): (r: seq<string>)
    ensures Distinct(r) && Elements(r) == Elements(xs)
    decreases |xs|
  {
    if xs == [] then []
    else
      var d := Dedup(xs[..|xs| - 1]);
      var x := xs[|xs| - 1];
      ElementsAppend(xs[..|xs| - 1], x);
      assert xs == xs[..|xs| - 1] + [x];
      if x in d then
        assert x in Elements(d);
        d
      else
        ElementsAppend(d, x);
        assert forall i :: 0 <= i < |d| ==> (d + [x])[i] == d[i];
        d + [x]
  }

  /** The group of the entries `ms`. */
  function GroupOf(ms: seq<SongEntry>): EntryGroup {
    EntryGroup(FirstUrl(ms), Dedup(DiffValues(ms)))
  }

  function KeysOf(entries: seq<SongEntry>, name: SongEntry -> string): set<string> {
    set e | e in entries :: name(e)
  }

  /** What grouping is meant to build: one group per directory name, made
      of the entries with that name. */
  function Grouped(entries: seq<SongEntry>, name: SongEntry -> string): map<string, EntryGroup> {
    map key | key in KeysOf(entries, name) :: GroupOf(Members(entries, name, key))
  }

  /** The group `g` after the entry `entry` joined it: the base URL is
      taken only while there is none, a diff URL only when it is new. */
  function Joined(g: EntryGroup, entry: SongEntry): EntryGroup {
    var base := if g.baseUrl.None? then NonEmpty(entry.url) else g.baseUrl;
    var d := NonEmpty(entry.urlDiff);
    EntryGroup(base, if d.Some? && d.value !in g.diffUrls then g.diffUrls + [d.value] else g.diffUrls)
  }

  /** The map of groups after `entry`, whose directory name is `key`. */
  function AddEntry(groups: map<string, EntryGroup>, key: string, entry: SongEntry): map<string, EntryGroup> {
    groups[key := Joined(if key in groups then groups[key] else EntryGroup(None, []), entry)]
  }

  /** `group_entries`: one pass over the entries, filling a map of groups. */
  method GroupEntries(entries: seq<SongEntry>, symbol: string) returns (groups: map<string, EntryGroup>)
    ensures groups == Grouped(entries, DirNameOf(symbol))
  {
    groups := map[];
    for i := 0 to |entries|
      invariant groups == Grouped(entries[..i], DirNameOf(symbol))
    {
      var entry := entries[i];
      var key := MakeDirName(entry, symbol);
      GroupPrefix(entries, i, DirNameOf(symbol));
      groups := AddToGroup(groups, key, entry);
    }
    assert entries[..|entries|] == entries;
  }

  /** The body of the loop of `group_entries`: the group of `key`, made
      empty when there is none yet, takes the entry's URLs. */
  method AddToGroup(groups: map<string, EntryGroup>, key: string, entry: SongEntry) returns (groups': map<string, EntryGroup>)
    ensures groups' == AddEntry(groups, key, entry)
  {
    var group := if key in groups then groups[key] else EntryGroup(None, []);
    if group.baseUrl.None? && entry.url.Some? && entry.url.value != "" {
      group := group.(baseUrl := entry.url);
    }
    if entry.urlDiff.Some? && entry.urlDiff.value != "" && entry.urlDiff.value !in group.diffUrls {
      group := group.(diffUrls := group.diffUrls + [entry.urlDiff.value]);
    }
    groups' := groups[key := group];
  }

  /** One entry more: its group gains it, the others stay. */
  lemma GroupStep(entries: seq<SongEntry>, entry: SongEntry, name: SongEntry -> string)
    ensures Grouped(entries + [entry], name) == AddEntry(Grouped(entries, name), name(entry), entry)
  {
    var g' := AddEntry(Grouped(entries, name), name(entry), entry);
    var h := Grouped(entries + [entry], name);
    forall k ensures (k in h <==> k in g') && (k in h ==> h[k] == g'[k]) {
      GroupKey(entries, entry, name, k);
    }
  }

  lemma GroupKey(entries: seq<SongEntry>, entry: SongEntry, name: SongEntry -> string, k: string)
    ensures var g' := AddEntry(Grouped(entries, name), name(entry), entry);
      var h := Grouped(entries + [entry], name);
      (k in h <==> k in g') && (k in h ==> h[k] == g'[k])
  {
    KeysAppend(entries, entry, name);
    if k in KeysOf(entries, name) || k == name(entry) {
      GroupAt(entries, entry, name, k);
    }
  }

  lemma GroupAt(entries: seq<SongEntry>, entry: SongEntry, name: SongEntry -> string, k: string)
    requires k in KeysOf(entries, name) || k == name(entry)
    ensures KeysOf(entries + [entry], name) == KeysOf(entries, name) + {name(entry)}
    ensures Grouped(entries + [entry], name)[k] == AddEntry(Grouped(entries, name), name(entry), entry)[k]
  {
    var key := name(entry);
    var all := entries + [entry];
    var g := Grouped(entries, name);
    KeysAppend(entries, entry, name);
    MembersAppend(entries, entry, name, k);
    if k == key {
      if key !in KeysOf(entries, name) {
        NoMembers(entries, name, key);
      }
      GroupAppend(Members(entries, name, key), entry);
    } else {
      assert Members(all, name, k) == Members(entries, name, k);
    }
  }

  lemma GroupPrefix(entries: seq<SongEntry>, i: nat, name: SongEntry -> string)
    requires i < |entries|
    ensures Grouped(entries[..i + 1], name) == AddEntry(Grouped(entries[..i], name), name(entries[i]), entries[i])
  {
    assert entries[..i + 1] == entries[..i] + [entries[i]];
    GroupStep(entries[..i], entries[i], name);
  }

  lemma KeysAppend(entries: seq<SongEntry>, entry: SongEntry, name: SongEntry -> string)
    ensures KeysOf(entries + [entry], name) == KeysOf(entries, name) + {name(entry)}
  {
    var all := entries + [entry];
    assert forall e :: e in all <==> e in entries || e == entry;
  }

  lemma MembersAppend(entries: seq<SongEntry>, entry: SongEntry, name: SongEntry -> string, k: string)
    ensures Members(entries + [entry], name, k) == Members(entries, name, k) + (if name(entry) == k then [entry] else [])
  {
    var all := entries + [entry];
    assert all[..|all| - 1] == entries && all[|all| - 1] == entry;
  }

  /** The group of `ms + [e]` is that of `ms` joined by `e`. */
  lemma GroupAppend(ms: seq<SongEntry>, e: SongEntry)
    ensures GroupOf(ms + [e]) == Joined(GroupOf(ms), e)
  {
    FirstUrlAppend(ms, e);
    var ms' := ms + [e];
    assert ms'[..|ms'| - 1] == ms;
    var xs := DiffValues(ms);
    var d := NonEmpty(e.urlDiff);
    if d.Some? {
      assert DiffValues(ms') == xs + [d.value];
      assert (xs + [d.value])[..|xs|] == xs;
      assert d.value in Dedup(xs) <==> d.value in Elements(Dedup(xs));
    } else {
      assert DiffValues(ms') == xs;
    }
  }

  lemma {:induction false} NoMembers(entries: seq<SongEntry>, name: SongEntry -> string, key: string)
    requires key !in KeysOf(entries, name)
    ensures Members(entries, name, key) == []
    decreases |entries|
  {
    if entries != [] {
      var init := entries[..|entries| - 1];
      assert forall e :: e in init ==> e in entries;
      NoMembers(init, name, key);
    }
  }

  /** The base URL belongs to an entry before which every `url` is missing
      or empty; there is none only when all are. */
  lemma {:induction false} FirstUrlSpec(ms: seq<SongEntry>)
    ensures var r := FirstUrl(ms);
      && (r.Some? ==> exists i :: 0 <= i < |ms| && NonEmpty(ms[i].url) == r && forall j :: 0 <= j < i ==> NonEmpty(ms[j].url).None?)
      && (r.None? ==> forall j :: 0 <= j < |ms| ==> NonEmpty(ms[j].url).None?)
    decreases |ms|
  {
    if ms != [] && NonEmpty(ms[0].url).None? {
      FirstUrlSpec(ms[1..]);
      var r := FirstUrl(ms);
      if r.Some? {
        var i :| 0 <= i < |ms[1..]| && NonEmpty(ms[1..][i].url) == r && forall j :: 0 <= j < i ==> NonEmpty(ms[1..][j].url).None?;
        assert NonEmpty(ms[i + 1].url) == r;
        forall j | 0 <= j < i + 1 ensures NonEmpty(ms[j].url).None? {
          if j > 0 {
            assert ms[j] == ms[1..][j - 1];
          }
        }
      } else {
        forall j | 0 <= j < |ms| ensures NonEmpty(ms[j].url).None? {
          if j > 0 {
            assert ms[j] == ms[1..][j - 1];
          }
        }
      }
    }
  }

  /** A later entry never replaces the base URL found first. */
  lemma {:induction false} FirstUrlAppend(ms: seq<SongEntry>, e: SongEntry)
    ensures FirstUrl(ms + [e]) == if FirstUrl(ms).Some? then FirstUrl(ms) else NonEmpty(e.url)
    decreases |ms|
  {
    if ms == [] {
      assert [e][1..] == [];
    } else {
      assert (ms + [e])[0] == ms[0] && (ms + [e])[1..] == ms[1..] + [e];
      FirstUrlAppend(ms[1..], e);
    }
  }

  /** An entry is a member of a group exactly when its directory name is
      the group's. */
  lemma {:induction false} MembersSpec(entries: seq<SongEntry>, name: SongEntry -> string, key: string, e: SongEntry)
    ensures e in Members(entries, name, key) <==> e in entries && name(e) == key
    decreases |entries|
  {
    if entries != [] {
      var init := entries[..|entries| - 1];
      MembersSpec(init, name, key, e);
      assert entries == init + [entries[|entries| - 1]];
    }
  }

  /** Every entry lands in the group of its directory name. */
  lemma EveryEntryGrouped(entries: seq<SongEntry>, name: SongEntry -> string, e: SongEntry)
    requires e in entries
    ensures name(e) in Grouped(entries, name)
    ensures e in Members(entries, name, name(e))
  {
    MembersSpec(entries, name, name(e), e);
  }

  /** The position of the first `x` in `xs`. */
  function FirstIndex(xs: seq<string>, x: string): (i: nat)
    requires x in xs
    ensures i < |xs| && xs[i] == x && forall j :: 0 <= j < i ==> xs[j] != x
  {
    if xs[0] == x then 0 else 1 + FirstIndex(xs[1..], x)
  }

  lemma {:induction false} FirstIndexAppend(xs: seq<string>, y: string, x: string)
    requires x in xs
    ensures FirstIndex(xs + [y], x) == FirstIndex(xs, x)
  {
    var i := FirstIndex(xs, x);
    var k := FirstIndex(xs + [y], x);
    assert (xs + [y])[i] == x;
    assert xs[k] == x;
  }

  /** The values of `r`, all found in `xs`, come in the order of their
      first appearance there. */
  ghost predicate FirstSeenOrder(r: seq<string>, xs: seq<string>) {
    forall i, j :: 0 <= i < j < |r| ==> SeenBefore(xs, r[i], r[j])
  }

  /** `a` and `b` are in `xs`, and `a` appears there first. */
  ghost predicate SeenBefore(xs: seq<string>, a: string, b: string) {
    a in xs && b in xs && FirstIndex(xs, a) < FirstIndex(xs, b)
  }

  /** The diff URLs keep the order in which they first appear. */
  lemma {:induction false} DedupOrder(xs: seq<string>)
    ensures FirstSeenOrder(Dedup(xs), xs)
    decreases |xs|
  {
    if xs != [] {
      var init := xs[..|xs| - 1];
      DedupOrder(init);
      DedupOrderStep(init, xs[|xs| - 1]);
      assert xs == init + [xs[|xs| - 1]];
    }
  }

  lemma DedupOrderStep(init: seq<string>, x: string)
    requires FirstSeenOrder(Dedup(init), init)
    ensures FirstSeenOrder(Dedup(init + [x]), init + [x])
  {
    var xs := init + [x];
    assert xs[..|xs| - 1] == init;
    var d := Dedup(init);
    OrderExtend(d, init, x);
    if x !in d {
      assert Dedup(xs) == d + [x];
      assert x !in Elements(init);
      forall k | 0 <= k < |d| ensures d[k] in init {
        assert d[k] in Elements(d);
      }
      OrderAppendNew(d, init, x);
    } else {
      assert Dedup(xs) == d;
    }
  }

  /** Appending to `xs` keeps the first appearances of what is already there. */
  lemma OrderExtend(r: seq<string>, xs: seq<string>, x: string)
    requires FirstSeenOrder(r, xs)
    ensures FirstSeenOrder(r, xs + [x])
  {
    forall i, j | 0 <= i < j < |r|
      ensures SeenBefore(xs + [x], r[i], r[j])
    {
      assert SeenBefore(xs, r[i], r[j]);
      FirstIndexAppend(xs, x, r[i]);
      FirstIndexAppend(xs, x, r[j]);
    }
  }

  /** A value new to `xs` appears first after everything already seen. */
  lemma OrderAppendNew(r: seq<string>, xs: seq<string>, x: string)
    requires FirstSeenOrder(r, xs + [x]) && x !in xs
    requires forall k :: 0 <= k < |r| ==> r[k] in xs
    ensures FirstSeenOrder(r + [x], xs + [x])
  {
    var ys := xs + [x];
    var r' := r + [x];
    assert FirstIndex(ys, x) == |xs| by {
      assert ys[|xs|] == x;
    }
    forall i, j | 0 <= i < j < |r'|
      ensures SeenBefore(ys, r'[i], r'[j])
    {
      assert r'[i] == r[i];
      if j < |r| {
        assert r'[j] == r[j];
      } else {
        FirstIndexAppend(xs, x, r[i]);
      }
    }
  }

  /** What a group holds: its base URL is the first non-empty `url` of its
      entries, and its diff URLs are their non-empty `url_diff` values, each
      once, in the order of first appearance. */
  lemma GroupedSpec(entries: seq<SongEntry>, name: SongEntry -> string, key: string)
    requires key in Grouped(entries, name)
    ensures var g := Grouped(entries, name)[key]; var ms := Members(entries, name, key);
      && g.baseUrl == FirstUrl(ms)
      && Distinct(g.diffUrls) && Elements(g.diffUrls) == Elements(DiffValues(ms))
      && FirstSeenOrder(g.diffUrls, DiffValues(ms))
  {
    DedupOrder(DiffValues(Members(entries, name, key)));
  }

  /** `DiffValues` gathers the non-empty `url_diff` of every entry. */
  lemma {:induction false} DiffValuesSpec(ms: seq<SongEntry>, d: string)
    ensures d in DiffValues(ms) <==> exists e :: e in ms && NonEmpty(e.urlDiff) == Some(d)
    decreases |ms|
  {
    if ms != [] {
      var init := ms[..|ms| - 1];
      DiffValuesSpec(init, d);
      assert ms == init + [ms[|ms| - 1]];
    }
  }

  // ---------------------------------------------------------------------
  // Download tasks

  /** `output_dir.join(dir_name)` */
  function EntryDir(outputDir: Path, dirName: string): Path {
    Join(outputDir, FromText(dirName))
  }

  function BaseTask(outputDir: Path, dirName: string, url: string): Download.Task {
    Download.Task(url, EntryDir(outputDir, dirName), dirName + ".zip", "[base] " + dirName)
  }

  /** The fallback name of diff task `i`. */
  function DiffFallback(dirName: string, i: nat): string {
    dirName + "_diff" + NatText(i) + ".zip"
  }

  function DiffTask(outputDir: Path, dirName: string, i: nat, url: string): Download.Task {
    Download.Task(url, EntryDir(outputDir, dirName), DiffFallback(dirName, i), "[diff] " + dirName + " #" + NatText(i))
  }

  function DiffTasks(outputDir: Path, dirName: string, urls: seq<string>): (r: seq<Download.Task>)
    ensures |r| == |urls| && forall i :: 0 <= i < |urls| ==> r[i] == DiffTask(outputDir, dirName, i, urls[i])
  {
    seq(|urls|, i requires 0 <= i < |urls| => DiffTask(outputDir, dirName, i, urls[i]))
  }

  /** The tasks of one group: the base download if there is one, then a
      download per diff URL unless diffs are turned off. */
  function GroupTasks(outputDir: Path, dirName: string, g: EntryGroup, noDiff: bool): seq<Download.Task> {
    (if g.baseUrl.Some? then [BaseTask(outputDir, dirName, g.baseUrl.value)] else [])
    + (if noDiff then [] else DiffTasks(outputDir, dirName, g.diffUrls))
  }

  /** The tasks of the groups `order` names, in that order, leaving out the
      directories in `kept`. */
  function AllTasks(groups: map<string, EntryGroup>, order: seq<string>, outputDir: Path, noDiff: bool, kept: set<string>): seq<Download.Task>
    requires forall k :: k in order ==> k in groups
    decreases |order|
  {
    if order == [] then []
    else
      var init := order[..|order| - 1];
      var k := order[|order| - 1];
      AllTasks(groups, init, outputDir, noDiff, kept) + (if k in kept then [] else GroupTasks(outputDir, k, groups[k], noDiff))
  }

  /** No two diff tasks share a fallback name, and none takes the base
      task's. */
  lemma FallbackNames(dirName: string, i: nat, j: nat)
    ensures i != j ==> DiffFallback(dirName, i) != DiffFallback(dirName, j)
    ensures DiffFallback(dirName, i) != dirName + ".zip"
  {
    var a := DiffFallback(dirName, i);
    var b := DiffFallback(dirName, j);
    if a == b {
      var k := |dirName| + 5;
      assert |NatText(i)| == |NatText(j)|;
      assert a[k..|a| - 4] == NatText(i);
      assert b[k..|b| - 4] == NatText(j);
      NatTextInjective(i, j);
    }
    assert a[|dirName|] == '_';
    assert (dirName + ".zip")[|dirName|] == '.';
  }

  /** The number of base tasks of a group. */
  function BaseCount(g: EntryGroup): nat {
    if g.baseUrl.Some? then 1 else 0
  }

  /** What the tasks of a group are: at most one base task, first, and
      then, unless diffs are off, the diff task of each diff URL in order;
      all save into the entry directory. */
  lemma GroupTasksSpec(outputDir: Path, dirName: string, g: EntryGroup, noDiff: bool)
    ensures var ts := GroupTasks(outputDir, dirName, g, noDiff);
      && |ts| == BaseCount(g) + (if noDiff then 0 else |g.diffUrls|)
      && (g.baseUrl.Some? ==> ts[0] == BaseTask(outputDir, dirName, g.baseUrl.value))
      && ts[BaseCount(g)..] == (if noDiff then [] else DiffTasks(outputDir, dirName, g.diffUrls))
      && (forall t :: t in ts ==> t.outputDir == EntryDir(outputDir, dirName))
  {
    var ts := GroupTasks(outputDir, dirName, g, noDiff);
    var diffs := if noDiff then [] else DiffTasks(outputDir, dirName, g.diffUrls);
    if g.baseUrl.Some? {
      var base := BaseTask(outputDir, dirName, g.baseUrl.value);
      assert ts == [base] + diffs;
      assert ts[1..] == diffs;
    } else {
      assert ts == diffs;
    }
  }

  /** No two of the tasks save onto the same fallback name. */
  predicate DistinctFallbackNames(ts: seq<Download.Task>) {
    forall i, j :: 0 <= i < j < |ts| ==> ts[i].fallbackName != ts[j].fallbackName
  }

  /** The tasks of a group all have different fallback names, so no two of
      them save onto one file when the server names none. */
  lemma GroupTasksDistinct(outputDir: Path, dirName: string, g: EntryGroup, noDiff: bool)
    ensures DistinctFallbackNames(GroupTasks(outputDir, dirName, g, noDiff))
  {
    GroupTasksNumbered(outputDir, dirName, g, noDiff);
    DistinctFallbacks(GroupTasks(outputDir, dirName, g, noDiff), dirName, g);
  }

  /** The base task, if any, falls back to the directory name; the diff
      tasks after it to their numbered names. */
  predicate NumberedFallbacks(ts: seq<Download.Task>, dirName: string, g: EntryGroup) {
    && (g.baseUrl.Some? ==> |ts| >= 1 && ts[0].fallbackName == dirName + ".zip")
    && forall i :: BaseCount(g) <= i < |ts| ==> ts[i].fallbackName == DiffFallback(dirName, i - BaseCount(g))
  }

  lemma GroupTasksNumbered(outputDir: Path, dirName: string, g: EntryGroup, noDiff: bool)
    ensures NumberedFallbacks(GroupTasks(outputDir, dirName, g, noDiff), dirName, g)
  {
    var ts := GroupTasks(outputDir, dirName, g, noDiff);
    GroupTasksSpec(outputDir, dirName, g, noDiff);
    if !noDiff {
      DiffTasksFallbacks(ts, BaseCount(g), outputDir, dirName, g.diffUrls);
    }
  }

  lemma DiffTasksFallbacks(ts: seq<Download.Task>, b: nat, outputDir: Path, dirName: string, urls: seq<string>)
    requires b <= |ts| && ts[b..] == DiffTasks(outputDir, dirName, urls)
    ensures forall i :: b <= i < |ts| ==> ts[i].fallbackName == DiffFallback(dirName, i - b)
  {
    forall i | b <= i < |ts| ensures ts[i].fallbackName == DiffFallback(dirName, i - b) {
      assert ts[i] == ts[b..][i - b];
    }
  }

  lemma DiffTasksAppend(outputDir: Path, dirName: string, urls: seq<string>, i: nat)
    requires i < |urls|
    ensures DiffTasks(outputDir, dirName, urls[..i + 1])
      == DiffTasks(outputDir, dirName, urls[..i]) + [DiffTask(outputDir, dirName, i, urls[i])]
  {
    var l := DiffTasks(outputDir, dirName, urls[..i + 1]);
    var r := DiffTasks(outputDir, dirName, urls[..i]) + [DiffTask(outputDir, dirName, i, urls[i])];
    assert |l| == |r|;
    forall k | 0 <= k < |l| ensures l[k] == r[k] {
      if k < i {
        assert urls[..i + 1][k] == urls[..i][k];
      }
    }
  }

  /** Fallback names laid out as a group's tasks lay them out are distinct. */
  lemma DistinctFallbacks(ts: seq<Download.Task>, dirName: string, g: EntryGroup)
    requires NumberedFallbacks(ts, dirName, g)
    ensures DistinctFallbackNames(ts)
  {
    var b := BaseCount(g);
    forall i, j | 0 <= i < j < |ts| ensures ts[i].fallbackName != ts[j].fallbackName {
      if i >= b {
        FallbackNames(dirName, i - b, j - b);
      } else {
        FallbackNames(dirName, j - b, j - b);
      }
    }
  }

  /** The task loop of the driver: `order` is the order in which the map of
      groups is walked, and `kept` the directories skipped because they
      already hold charts. */
  method GenerateTasks(groups: map<string, EntryGroup>, order: seq<string>, outputDir: Path, noDiff: bool, kept: set<string>)
    returns (tasks: seq<Download.Task>)
    requires forall k :: k in order ==> k in groups
    ensures tasks == AllTasks(groups, order, outputDir, noDiff, kept)
  {
    tasks := [];
    for n := 0 to |order|
      invariant tasks == AllTasks(groups, order[..n], outputDir, noDiff, kept)
    {
      var dirName := order[n];
      assert order[..n + 1][..n] == order[..n];
      if dirName in kept {
        continue;
      }
      tasks := PushGroupTasks(tasks, outputDir, dirName, groups[dirName], noDiff);
    }
    assert order[..|order|] == order;
  }

  /** The tasks of one group pushed after `tasks`. */
  method PushGroupTasks(tasks: seq<Download.Task>, outputDir: Path, dirName: string, group: EntryGroup, noDiff: bool)
    returns (tasks': seq<Download.Task>)
    ensures tasks' == tasks + GroupTasks(outputDir, dirName, group, noDiff)
  {
    var entryDir := EntryDir(outputDir, dirName);
    tasks' := tasks;
    if group.baseUrl.Some? {
      tasks' := tasks' + [Download.Task(group.baseUrl.value, entryDir, dirName + ".zip", "[base] " + dirName)];
    }
    ghost var withBase := tasks';
    if !noDiff {
      for i := 0 to |group.diffUrls|
        invariant tasks' == withBase + DiffTasks(outputDir, dirName, group.diffUrls[..i])
      {
        DiffTasksAppend(outputDir, dirName, group.diffUrls, i);
        var task := Download.Task(group.diffUrls[i], entryDir, dirName + "_diff" + NatText(i) + ".zip",
                                  "[diff] " + dirName + " #" + NatText(i));
        assert task == DiffTask(outputDir, dirName, i, group.diffUrls[i]);
        assert withBase + DiffTasks(outputDir, dirName, group.diffUrls[..i]) + [task]
            == withBase + (DiffTasks(outputDir, dirName, group.diffUrls[..i]) + [task]);
        tasks' := tasks' + [task];
      }
      assert group.diffUrls[..|group.diffUrls|] == group.diffUrls;
    }
    PushedTasks(tasks, withBase, tasks', outputDir, dirName, group, noDiff);
  }

  /** The two halves of a group's tasks, pushed one after the other. */
  lemma PushedTasks(tasks: seq<Download.Task>, withBase: seq<Download.Task>, tasks': seq<Download.Task>,
                    outputDir: Path, dirName: string, group: EntryGroup, noDiff: bool)
    requires withBase == tasks + (if group.baseUrl.Some? then [BaseTask(outputDir, dirName, group.baseUrl.value)] else [])
    requires tasks' == withBase + (if noDiff then [] else DiffTasks(outputDir, dirName, group.diffUrls))
    ensures tasks' == tasks + GroupTasks(outputDir, dirName, group, noDiff)
  {
  }

  // ---------------------------------------------------------------------
  // The tally of outcomes

  /** The archives the successful downloads saved, in outcome order. */
  function Successes(results: seq<Download.Outcome>): seq<Path>
    decreases |results|
  {
    if results == [] then []
    else
      var o := results[|results| - 1];
      Successes(results[..|results| - 1]) + (if o.Success? then [o.path] else [])
  }

  /** The `url\treason` lines of the skipped downloads, in outcome order. */
  function SkipLines(results: seq<Download.Outcome>): seq<string>
    decreases |results|
  {
    if results == [] then []
    else
      var o := results[|results| - 1];
      SkipLines(results[..|results| - 1]) + (if o.Skipped? then [o.url + "\t" + o.reason] else [])
  }

  /** The `url\terror` lines of the failed downloads, in outcome order. */
  function FailLines(results: seq<Download.Outcome>): seq<string>
    decreases |results|
  {
    if results == [] then []
    else
      var o := results[|results| - 1];
      FailLines(results[..|results| - 1]) + (if o.Failed? then [o.url + "\t" + o.error] else [])
  }

  /** The outcome loop of the driver: each outcome bumps one counter; a
      success hands its archive on for unpacking, the others leave a log
      line. */
  method Tally(results: seq<Download.Outcome>)
    returns (successCount: nat, skipCount: nat, failCount: nat, failed: seq<string>, skipped: seq<string>, archives: seq<Path>)
    ensures archives == Successes(results) && skipped == SkipLines(results) && failed == FailLines(results)
    ensures successCount == |archives| && skipCount == |skipped| && failCount == |failed|
  {
    successCount, skipCount, failCount := 0, 0, 0;
    failed, skipped, archives := [], [], [];
    for i := 0 to |results|
      invariant archives == Successes(results[..i]) && skipped == SkipLines(results[..i]) && failed == FailLines(results[..i])
      invariant successCount == |archives| && skipCount == |skipped| && failCount == |failed|
    {
      assert results[..i + 1][..i] == results[..i];
      match results[i]
      case Success(path) =>
        successCount := successCount + 1;
        archives := archives + [path];
      case Skipped(url, reason) =>
        skipCount := skipCount + 1;
        skipped := skipped + [url + "\t" + reason];
      case Failed(url, error) =>
        failCount := failCount + 1;
        failed := failed + [url + "\t" + error];
    }
    assert results[..|results|] == results;
  }

  /** Every outcome is counted exactly once: the three counts add up to the
      number of downloads. */
  lemma {:induction false} TallyTotal(results: seq<Download.Outcome>)
    ensures |Successes(results)| + |SkipLines(results)| + |FailLines(results)| == |results|
    decreases |results|
  {
    if results != [] {
      TallyTotal(results[..|results| - 1]);
    }
  }

  /** A log line per skipped or failed download, holding its URL and, after
      a tab, its reason. */
  lemma {:induction false} LogLinesSpec(results: seq<Download.Outcome>, url: string, why: string)
    ensures url + "\t" + why in FailLines(results) <== Download.Failed(url, why) in results
    ensures url + "\t" + why in SkipLines(results) <== Download.Skipped(url, why) in results
    decreases |results|
  {
    if results != [] {
      var init := results[..|results| - 1];
      LogLinesSpec(init, url, why);
      assert results == init + [results[|results| - 1]];
    }
  }

  /** Every log line comes from a skipped or failed download: its URL, a
      tab and its reason. */
  lemma {:induction false} LogLinesOnly(results: seq<Download.Outcome>, line: string)
    ensures line in FailLines(results) ==>
      exists k :: 0 <= k < |results| && results[k].Failed? && line == results[k].url + "\t" + results[k].error
    ensures line in SkipLines(results) ==>
      exists k :: 0 <= k < |results| && results[k].Skipped? && line == results[k].url + "\t" + results[k].reason
    decreases |results|
  {
    if results != [] {
      var n := |results| - 1;
      var init := results[..n];
      LogLinesOnly(init, line);
      if line in FailLines(init) {
        var k :| 0 <= k < |init| && init[k].Failed? && line == init[k].url + "\t" + init[k].error;
        assert results[k] == init[k];
      }
      if line in SkipLines(init) {
        var k :| 0 <= k < |init| && init[k].Skipped? && line == init[k].url + "\t" + init[k].reason;
        assert results[k] == init[k];
      }
    }
  }

  // ---------------------------------------------------------------------
  // Unpacking a downloaded archive (`extract_and_normalize`)

  datatype UnpackError = NoParent | ArchiveFailed(archiveError: Archive.ArchiveError) | IoFailed(ioError: IoError)

  /** The names of the workspace listing `w` that have gone up once the
      names `done` have been seen: those the parent listing `e` lacks. */
  function MovedUp(e: map<string, Node>, w: map<string, Node>, done: set<string>): set<string> {
    (done * w.Keys) - e.Keys
  }

  /** The listing of the parent directory, which lists `e` and among it the
      workspace `s` listing `w`, once the names `done` of the workspace have
      been seen: a name the parent lacks has gone up, the others stay. */
  function MoveStage(e: map<string, Node>, s: string, w: map<string, Node>, done: set<string>): map<string, Node> {
    var up := MovedUp(e, w, done);
    map k | k in e.Keys + up :: if k == s then Dir(map c | c in w.Keys - up :: w[c]) else if k in e then e[k] else w[k]
  }

  lemma MoveStageStart(e: map<string, Node>, s: string, w: map<string, Node>)
    requires s in e && e[s] == Dir(w)
    ensures MoveStage(e, s, w, {}) == e
  {
    assert MovedUp(e, w, {}) == {};
    assert (map c | c in w.Keys - {} :: w[c]) == w;
  }

  /** One turn of the loop: a name the parent already lists is left where
      it is; any other moves out of the workspace into the parent. */
  lemma MoveStageStep(e: map<string, Node>, s: string, w: map<string, Node>, done: set<string>, c: string)
    requires s in e && c in w && c !in done
    ensures var m := MoveStage(e, s, w, done);
      && (c in m <==> c in e)
      && (c in e ==> MoveStage(e, s, w, done + {c}) == m)
      && (c !in e ==>
            && c != s && s in m && m[s].Dir? && c in m[s].entries
            && MoveStage(e, s, w, done + {c}) == m[s := Dir(m[s].entries - {c})][c := m[s].entries[c]])
  {
    var m := MoveStage(e, s, w, done);
    var up := MovedUp(e, w, done);
    if c in e {
      assert MovedUp(e, w, done + {c}) == up;
    } else {
      assert MovedUp(e, w, done + {c}) == up + {c};
      var m' := MoveStage(e, s, w, done + {c});
      assert m[s].entries - {c} == (map x | x in w.Keys - (up + {c}) :: w[x]);
      assert m'.Keys == m.Keys + {c};
    }
  }

  /** After the loop: the parent keeps every entry it had, gains every
      other entry of the workspace, and the workspace keeps only the
      entries whose names the parent already had. */
  lemma MoveStageEnd(e: map<string, Node>, s: string, w: map<string, Node>)
    requires s in e
    ensures var m := MoveStage(e, s, w, w.Keys);
      && m.Keys == e.Keys + w.Keys
      && (forall k :: k in e && k != s ==> m[k] == e[k])
      && (forall k :: k in w && k !in e ==> m[k] == w[k])
      && m[s] == Dir(map k | k in w && k in e :: w[k])
  {
    var up := MovedUp(e, w, w.Keys);
    assert up == w.Keys - e.Keys;
    assert (map c | c in w.Keys - up :: w[c]) == (map k | k in w && k in e :: w[k]);
  }

  /** The clean-up: the workspace `s` goes, and so does the archive `name`
      when the parent lists it as a file. */
  function AfterCleanup(m: map<string, Node>, s: string, name: string): map<string, Node> {
    var l := m - {s};
    if name in l && l[name].File? then l - {name} else l
  }

  /** The listing of a directory, or nothing for what is not one. */
  ghost function ListingAt(fs: Fs, p: Path): map<string, Node> {
    match Get(fs.root, Abs(fs, p))
    case Some(Dir(e)) => e
    case _ => map[]
  }

  /** What the parent of the archive lists at the end, given what it
      listed `e` after the archive was unpacked into its subdirectory `s`:
      the workspace is flattened, every entry of it whose name is free
      moves up, and the workspace and the archive `name` are removed. */
  ghost function UnpackedListing(e: map<string, Node>, s: string, name: string): map<string, Node> {
    var f := if s in e then Normalize.Flattened(e[s]) else Dir(map[]);
    var w := if f.Dir? then f.entries else map[];
    AfterCleanup(MoveStage(e[s := f], s, w, w.Keys), s, name)
  }

  /** The unpacked contents take only names that were free: every entry
      the parent had stays as it was, every other entry of the flattened
      workspace is added, nothing else appears, and the workspace and a
      file named like the archive are gone. */
  lemma UnpackedListingSpec(e: map<string, Node>, s: string, name: string)
    requires s in e && e[s].Dir?
    ensures var w := Normalize.Flattened(e[s]).entries; var u := UnpackedListing(e, s, name);
      && s !in u
      && (forall k :: k in e && k != s && k != name ==> k in u && u[k] == e[k])
      && (forall k :: k in w && k !in e && k != name ==> k in u && u[k] == w[k])
      && (forall k :: k in u ==> k in e || k in w)
      && (name in e && name != s && e[name].File? ==> name !in u)
  {
    var f := Normalize.Flattened(e[s]);
    var w := f.entries;
    MoveStageEnd(e[s := f], s, w);
  }

  /** What the move loop starts from: the workspace `ws` is the
      subdirectory `s` of `parent`, and `names` lists it, each name once. */
  predicate MoveReady(fs: Fs, ws: Path, parent: Path, s: string, names: seq<string>) {
    var a := Abs(fs, parent);
    && Abs(fs, ws) == a + [s] && IsDirAt(fs.root, a) && CanPut(fs.root, a)
    && s in Get(fs.root, a).value.entries && Get(fs.root, a).value.entries[s].Dir?
    && Distinct(names) && Elements(names) == Get(fs.root, a).value.entries[s].entries.Keys
  }

  /** One turn of the move loop, on the tree. */
  lemma MoveTurn(fs: Fs, ws: Path, parent: Path, s: string, e: map<string, Node>, w: map<string, Node>,
                 done: set<string>, c: string, t: Node)
    requires Abs(fs, ws) == Abs(fs, parent) + [s] && s in e && c in w && c !in done
    requires var m := MoveStage(e, s, w, done);
      Normalize.DirAt(fs, parent, m) && Normalize.Replaced(t, fs.root, Abs(fs, parent), Dir(m))
    ensures var a := Abs(fs, parent); var m' := MoveStage(e, s, w, done + {c});
      && (Exists(fs, Normalize.Child(parent, c)) <==> c in e)
      && (c in e ==> m' == MoveStage(e, s, w, done))
      && (c !in e ==>
            var r := Rename(fs, Normalize.Child(ws, c), Normalize.Child(parent, c));
            && r.Ok? && r.value.cwd == fs.cwd
            && Normalize.DirAt(r.value, parent, m') && Normalize.Replaced(t, r.value.root, a, Dir(m')))
  {
    var a := Abs(fs, parent);
    var m := MoveStage(e, s, w, done);
    MoveStageStep(e, s, w, done, c);
    AbsChild(fs, parent, c);
    GetAppend(fs.root, a, [c]);
    if c !in e {
      var up := Join(Join(parent, [Normal(s)]), [Normal(c)]);
      AbsChild(fs, parent, s);
      AbsChild(fs, Join(parent, [Normal(s)]), c);
      AbsChild(fs, ws, c);
      assert Abs(fs, Normalize.Child(ws, c)) == Abs(fs, up);
      RenameUp(fs, parent, s, c);
      assert Rename(fs, Normalize.Child(ws, c), Normalize.Child(parent, c)) == Rename(fs, up, Normalize.Child(parent, c));
      Normalize.WithDirAt(fs, parent, m, MoveStage(e, s, w, done + {c}), t);
    }
  }

  /** The move loop of `extract_and_normalize`: each entry of the workspace
      goes up into the parent directory unless the parent already has an
      entry of that name. Nothing in the parent is ever replaced, so no
      rename fails; at the end the parent lists what `MoveStage` says and
      nothing outside it has changed. */
  method MoveIfAbsent(fs: Fs, ws: Path, parent: Path, names: seq<string>, ghost s: string)
    returns (r: Result<(), IoError>, fs': Fs)
    ensures fs'.cwd == fs.cwd
    ensures MoveReady(fs, ws, parent, s, names) ==>
      var a := Abs(fs, parent); var e := Get(fs.root, a).value.entries; var w := e[s].entries;
      var m := MoveStage(e, s, w, w.Keys);
      r.Ok? && Normalize.DirAt(fs', parent, m) && Normalize.Replaced(fs.root, fs'.root, a, Dir(m))
  {
    ghost var ready := MoveReady(fs, ws, parent, s, names);
    ghost var a := Abs(fs, parent);
    ghost var e: map<string, Node> := if ready then Get(fs.root, a).value.entries else map[s := Dir(map[])];
    ghost var w: map<string, Node> := if ready then e[s].entries else map[];
    if ready {
      MoveStageStart(e, s, w);
      PutGet(fs.root, a);
      assert names[..0] == [];
      assert Elements(names[..0]) == {};
    }
    fs' := fs;
    for i := 0 to |names|
      invariant fs'.cwd == fs.cwd
      invariant ready ==> Normalize.DirAt(fs', parent, MoveStage(e, s, w, Elements(names[..i])))
      invariant ready ==> Normalize.Replaced(fs.root, fs'.root, a, Dir(MoveStage(e, s, w, Elements(names[..i]))))
    {
      var c := names[i];
      var dest := Normalize.Child(parent, c);
      if ready {
        Normalize.NextElement(names, i, w.Keys);
        MoveTurn(fs', ws, parent, s, e, w, Elements(names[..i]), c, fs.root);
      }
      if !Exists(fs', dest) {
        var renamed := Rename(fs', Normalize.Child(ws, c), dest);
        if renamed.Err? {
          return Err(renamed.error), fs';
        }
        fs' := renamed.value;
      }
    }
    assert names[..|names|] == names;
    return Ok(()), fs';
  }

  /** The subtree at `a/s` replaced by `n` is the listing of `a` with the
      entry `s` replaced by `n`. */
  lemma LiftReplaced(t: Node, t': Node, a: seq<string>, s: string, n: Node)
    requires Get(t, a + [s]).Some? && Normalize.Replaced(t, t', a + [s], n)
    ensures IsDirAt(t, a) && CanPut(t, a)
    ensures var e := Get(t, a).value.entries;
      && s in e && e[s] == Get(t, a + [s]).value
      && Get(t', a) == Some(Dir(e[s := n])) && CanPut(t', a) && Normalize.Replaced(t, t', a, Dir(e[s := n]))
  {
    GetAppend(t, a, [s]);
    var e := Get(t, a).value.entries;
    if a != [] {
      assert IsPrefix(Init(a), a + [s]);
      AncestorIsDir(t, Init(a), a + [s]);
    }
    PutAppend(t, a, [s], n);
    assert Put(Dir(e), [s], n) == Dir(e[s := n]);
    PutPut(t, a, Dir(e[s := n]), Dir(e[s := n]));
    GetPut(t, a, Dir(e[s := n]), a);
    assert a[|a|..] == [];
  }

  /** What `flatten_single_subdirs` of the workspace `s` does to the
      listing of its parent. */
  lemma FlattenedWorkspace(fs1: Fs, fs2: Fs, ws: Path, parent: Path, s: string)
    requires fs2.cwd == fs1.cwd && Abs(fs1, ws) == Abs(fs1, parent) + [s] && IsDir(fs1, ws)
    requires var a := Abs(fs1, parent);
      Normalize.Replaced(fs1.root, fs2.root, a + [s], Normalize.Flattened(Get(fs1.root, a + [s]).value))
    ensures var a := Abs(fs1, parent); var e := ListingAt(fs1, parent);
      && s in e && e[s].Dir? && Normalize.Flattened(e[s]).Dir? && IsDir(fs2, ws)
      && Get(fs2.root, Abs(fs2, ws)).value == Normalize.Flattened(e[s])
      && Normalize.DirAt(fs2, parent, e[s := Normalize.Flattened(e[s])])
      && Normalize.Replaced(fs1.root, fs2.root, a, Dir(e[s := Normalize.Flattened(e[s])]))
  {
    var a := Abs(fs1, parent);
    var f := Normalize.Flattened(Get(fs1.root, a + [s]).value);
    LiftReplaced(fs1.root, fs2.root, a, s, f);
    GetAppend(fs2.root, a, [s]);
  }

  /** The two removals at the end of `extract_and_normalize`, each of
      whose failure is ignored. */
  function Cleanup(fs: Fs, ws: Path, archive: Path): Fs {
    var removed := RemoveDirAll(fs, ws);
    var fs1 := if removed.Ok? then removed.value else fs;
    var deleted := RemoveFile(fs1, archive);
    if deleted.Ok? then deleted.value else fs1
  }

  /** The clean-up removes the workspace `s` beside the archive `name` and
      the archive when it is still a file there; nothing else changes. */
  lemma CleanupEffect(fs: Fs, parent: Path, s: string, name: string, m: map<string, Node>, t: Node)
    requires s in m && m[s].Dir?
    requires Normalize.DirAt(fs, parent, m) && Normalize.Replaced(t, fs.root, Abs(fs, parent), Dir(m))
    ensures var after := Cleanup(fs, Normalize.Child(parent, s), Normalize.Child(parent, name));
      && after.cwd == fs.cwd
      && Normalize.DirAt(after, parent, AfterCleanup(m, s, name))
      && Normalize.Replaced(t, after.root, Abs(fs, parent), Dir(AfterCleanup(m, s, name)))
  {
    var a := Abs(fs, parent);
    RemoveChildTree(fs, parent, s);
    Normalize.WithDirAt(fs, parent, m, m - {s}, t);
    var fs1 := RemoveDirAll(fs, Normalize.Child(parent, s)).value;
    RemoveChildFile(fs1, parent, name);
    if RemoveFile(fs1, Normalize.Child(parent, name)).Ok? {
      Normalize.WithDirAt(fs1, parent, m - {s}, m - {s} - {name}, t);
    }
  }

  /** From the state after the move loop to the end of
      `extract_and_normalize`, on the listing of the archive's directory. */
  lemma UnpackFinish(fs1: Fs, fs2: Fs, fs3: Fs, parent: Path, s: string, name: string, e: map<string, Node>)
    requires fs2.cwd == fs1.cwd && fs3.cwd == fs1.cwd
    requires s in e && e[s].Dir? && Normalize.Flattened(e[s]).Dir?
    requires var f := Normalize.Flattened(e[s]);
      Normalize.Replaced(fs1.root, fs2.root, Abs(fs1, parent), Dir(e[s := f]))
    requires var f := Normalize.Flattened(e[s]); var m := MoveStage(e[s := f], s, f.entries, f.entries.Keys);
      Normalize.DirAt(fs3, parent, m) && Normalize.Replaced(fs2.root, fs3.root, Abs(fs1, parent), Dir(m))
    ensures var after := Cleanup(fs3, Normalize.Child(parent, s), Normalize.Child(parent, name));
      var u := UnpackedListing(e, s, name);
      && after.cwd == fs1.cwd
      && Normalize.DirAt(after, parent, u) && Normalize.Replaced(fs1.root, after.root, Abs(fs1, parent), Dir(u))
  {
    var a := Abs(fs1, parent);
    var f := Normalize.Flattened(e[s]);
    var m := MoveStage(e[s := f], s, f.entries, f.entries.Keys);
    MoveStageEnd(e[s := f], s, f.entries);
    PutPut(fs1.root, a, Dir(e[s := f]), Dir(m));
    CleanupEffect(fs3, parent, s, name, m, fs1.root);
  }

  /** When the archive can be unpacked: it is a valid path naming a file in
      a directory, and the workspace it is unpacked into
      is a directory afterwards whose chain of lone subdirectories has no
      entry named like the subdirectory holding it. */
  ghost predicate Unpackable(fs: Fs, archive: Path, codecs: Archive.Codecs) {
    && Parent(archive).Some? && FileName(archive).Some?
    && ValidPath(archive)
    && var x := Archive.ExtractArchive(fs, archive, Parent(archive).value, codecs);
       x.0.Ok? && IsDir(x.1, x.0.value) && !Normalize.Collides(Get(x.1.root, Abs(x.1, x.0.value)).value)
  }

  /** `extract_and_normalize`: unpacks a downloaded archive into a hidden
      workspace beside it, flattens the workspace (failing, with the
      workspace and the archive left in place, when the flattening
      clashes), moves each of its
      entries up into the archive's directory unless that name is taken,
      then removes the workspace and the archive, ignoring failures of the
      two removals. */
  method ExtractAndNormalize(fs: Fs, archive: Path, codecs: Archive.Codecs) returns (r: Result<(), UnpackError>, fs': Fs)
    ensures Parent(archive).None? ==> r == Err(NoParent) && fs' == fs
    ensures Parent(archive).Some? ==>
      var x := Archive.ExtractArchive(fs, archive, Parent(archive).value, codecs);
      && (x.0.Err? ==> r == Err(ArchiveFailed(x.0.error)) && fs' == x.1)
      && (x.0.Ok? && !IsDir(x.1, x.0.value) ==> r.Err? && r.error.IoFailed? && fs' == x.1)
      && (x.0.Ok? && IsDir(x.1, x.0.value) && Normalize.Collides(Get(x.1.root, Abs(x.1, x.0.value)).value) ==>
            && r == Err(IoFailed(DirectoryNotEmpty)) && fs'.cwd == x.1.cwd
            && exists e :: Normalize.Replaced(x.1.root, fs'.root, Abs(x.1, x.0.value), Dir(e)))
    ensures Unpackable(fs, archive, codecs) ==>
      var parent := Parent(archive).value;
      var fs1 := Archive.ExtractArchive(fs, archive, parent, codecs).1;
      var s := "." + Archive.WorkspaceStem(archive) + "_extracted";
      var u := UnpackedListing(ListingAt(fs1, parent), s, FileName(archive).value);
      && r.Ok? && fs'.cwd == fs1.cwd
      && Normalize.DirAt(fs', parent, u) && Normalize.Replaced(fs1.root, fs'.root, Abs(fs1, parent), Dir(u))
  {
    var parentOf := Parent(archive);
    if parentOf.None? {
      return Err(NoParent), fs;
    }
    var parent := parentOf.value;
    var (extracted, fs1) := Archive.ExtractArchive(fs, archive, parent, codecs);
    if extracted.Err? {
      return Err(ArchiveFailed(extracted.error)), fs1;
    }
    var workspace := extracted.value;
    var flattened, fs2 := Normalize.FlattenSingleSubdirs(fs1, workspace);
    if flattened.Err? {
      return Err(IoFailed(flattened.error)), fs2;
    }
    ghost var ok := Unpackable(fs, archive, codecs);
    ghost var s := "." + Archive.WorkspaceStem(archive) + "_extracted";
    ghost var e := ListingAt(fs1, parent);
    if ok {
      Archive.WorkspaceName(fs1, archive, parent);
      FlattenedWorkspace(fs1, fs2, workspace, parent, s);
    }
    var listed := ListDir(fs2, workspace);
    if listed.Err? {
      return Err(IoFailed(listed.error)), fs2;
    }
    if ok {
      assert MoveReady(fs2, workspace, parent, s, listed.value);
    }
    var moved, fs3 := MoveIfAbsent(fs2, workspace, parent, listed.value, s);
    if moved.Err? {
      return Err(IoFailed(moved.error)), fs3;
    }
    fs' := Cleanup(fs3, workspace, archive);
    if ok {
      ParentAndName(archive);
      UnpackFinish(fs1, fs2, fs3, parent, s, FileName(archive).value, e);
    }
    return Ok(()), fs';
  }
}
