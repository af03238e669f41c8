# bms-dl, modelled in Dafny

bms-dl downloads every song of a BMS difficulty table. It reads the table's
entries, optionally keeps only one level, and groups the entries by the
directory name each one gets (`{symbol}{level}_{title}`, sanitised). For every
group it makes a base download task and one task per extra chart ("diff") URL.
Each task's URL is resolved by its host: Google Drive links become the direct
download form, Dropbox links get `dl=1`, manbow pages are scraped for their
first archive or hosting link (with a headless-browser fallback), mega.nz is
refused and anything else is used as it is. Each download is then made with
up to three attempts, saved under the name the server gives (or a fallback)
through a temporary file, and the outcomes are tallied. A downloaded archive
is unpacked into a hidden workspace beside it, where lone subdirectories are
flattened. Its entries are moved up unless their names are taken, and the
workspace and the archive are removed.

The model is one Dafny module per source concern:

- `Text`, `Utf8`, `Percent`, `Urls` and `Paths` give the meaning of the
  library calls the program relies on: string search and trimming, UTF-8,
  percent-decoding, a simplified URL record, and Rust's lexical `Path`.
- `Fs` is the file system as a tree value with the `std::fs` calls as
  functions.
- `Links`, `Browser`, `Resolve`, `Download`, `Archive`, `Normalize` and
  `Program` follow src/resolve.rs, src/browser.rs, src/download.rs,
  src/archive.rs, src/normalize.rs and src/main.rs.

Loops of the source are methods with loop invariants. Each method is proved
equal to a specification function, or proved to meet stated postconditions.
The properties are lemmas about those functions.

The network, the browser, the HTML parser and the archive codecs are never
defined. They are inputs to the model:

- `Resolve.Web` holds the page fetch, the href scan, `Url::join` and the browser's
  link list.
- `Download.Http` holds GET and the confirmation-form scan.
- `Download.Env` adds the `is_html` test and which spawned tasks panic.
- `Archive.Codecs` holds the zip and LZH entry readers, Shift-JIS decoding, and
  RAR/7z unpacking.

## Model

| member | source | states |
|---|---|---|
| Resolve.DispatchByHost | src/resolve.rs:26-39 | The rule is chosen by the exact host alone. `drive.google.com` selects the Drive rule. The three Dropbox hosts select the Dropbox rule. `manbow.nothing.sh` is scraped. `mega.nz` gives the fixed error. Any other host passes through unchanged with itself as origin. |
| Resolve.PassThroughIsStable | src/resolve.rs:35-38 | For an unlisted host the result is `(raw, raw)`, and resolving its URL again gives the same result. |
| Resolve.DriveFileIdSource | src/resolve.rs:48-61 | When the first `/file/d/` is followed by a non-`/` character, the ID is the non-empty, `/`-free segment there, ending at the next `/` or the end of the path. Otherwise the ID is the first `id` pair's value. With no `/file/d/`, a found ID is some pair `("id", ID)`; with no ID, no pair has key `id`. |
| Resolve.DriveOutcome | src/resolve.rs:63-69 | A Drive link resolves exactly when it parses and a file ID is found; an unparsable link is the invalid-URL error. The result keeps the raw URL as origin. For an ID without `&` it reads back as `/uc` on drive.google.com whose first `id` is that ID. |
| Resolve.DriveShareLink | src/resolve.rs:43-69 | A sharing link `https://drive.google.com/file/d/<id>/view` resolves to the download URL of that ID. |
| Resolve.DriveUrlShows | src/resolve.rs:63-64 | The canonical text is the serialisation of the URL record `https://drive.google.com/uc` with pairs `export=download`, `id`, `confirm=t`. |
| Resolve.DriveUrlParses | src/resolve.rs:63-64 | The canonical Drive URL parses back to that record. |
| Resolve.DriveIsStable | src/resolve.rs:43-69 | Re-resolving the canonical Drive URL yields the same URL, because `/uc` has no `/file/d/` and its first `id` pair is the ID. |
| Resolve.RewritePairs | src/resolve.rs:76-85 | The collected pairs are the query with every `dl` value replaced by `1`. |
| Resolve.ForceDlKeys | src/resolve.rs:76-87 | The rewrite keeps every key, so `has_dl` computed on it is the input's. |
| Resolve.AnyKey | src/resolve.rs:87 | The loop finds a key exactly when some pair has it. |
| Resolve.RewriteQuery | src/resolve.rs:87-96 | Clearing and re-appending the pairs, or appending `dl=1`, gives the Dropbox query. |
| Resolve.ResolveDropbox | src/resolve.rs:72-102 | `resolve_dropbox` returns the rewritten URL with the raw URL as origin, or the parse error. |
| Resolve.DropboxPairs | src/resolve.rs:76-96 | With a `dl` key, each pair keeps its place and key: `dl` values become `1`, other pairs are unchanged. Without one, `dl=1` is appended at the end. The result always has `dl` and every `dl` value is `1`. |
| Resolve.DropboxQueryIdempotent | src/resolve.rs:76-96 | Applying the rewrite twice equals applying it once. |
| Resolve.DropboxKeepsWellFormed | src/resolve.rs:89-96 | The rewrite keeps a query whose text round-trips. |
| Resolve.DropboxOutcomeIsStable | src/resolve.rs:98-101 | The result parses to the input URL with only the query rewritten, and the Dropbox rule leaves it fixed. |
| Resolve.DropboxRule | src/resolve.rs:28-30 | A Dropbox host is resolved by the Dropbox rule. |
| Resolve.DropboxIsStable | src/resolve.rs:72-102 | A resolved Dropbox URL has the same host and path, and resolving it again gives the same URL. |
| Resolve.LinkTargets | src/resolve.rs:160-166 | One candidate per href, in document order. |
| Resolve.ExtractLinks | src/resolve.rs:155-169 | Each href is joined against the page URL, falling back to the page URL itself when the join fails. |
| Resolve.FirstCandidate | src/resolve.rs:121-142 | The index of the first candidate that passes a test, with every earlier one failing both; none when all fail. |
| Resolve.Classify | src/resolve.rs:122-141 | The archive-suffix test is made before the hosting-host test. |
| Resolve.FindCandidate | src/resolve.rs:121-142 | The early-return loop stops at the first candidate that passes a test. |
| Resolve.HostingCandidateDepth | src/resolve.rs:136-141 | A hosting candidate is never a manbow page, so its resolution scrapes nothing. |
| Resolve.ResolveUrl | src/resolve.rs:16-41 | `resolve_url` computes `Resolution`, terminating on the one-hop depth measure. |
| Resolve.ResolveManbow | src/resolve.rs:104-153 | `resolve_manbow` computes `ManbowResolution`. |
| Resolve.ManbowFirstMatch | src/resolve.rs:121-152 | The first passing candidate decides. An archive link is the result with the page as origin. A hosting link is exactly the recursive resolution, so its origin is the link. With no passing candidate, the browser result is returned, or its error wrapped in the manbow message. |
| Resolve.ManbowRecursesOnce | src/resolve.rs:136-141 | The recursive call resolves a URL of a non-manbow host: recursion is at most one hop. |
| Links.ManbowIsNotHosting | src/resolve.rs:113-119 | No hosting domain occurs in `manbow.nothing.sh`. |
| Urls.FirstValue | src/resolve.rs:55-60 | The first `id` pair's value, with no earlier pair of that key; none when no pair has it. |
| Urls.ParseShow | src/resolve.rs:99 | Serialising a well-formed URL record and parsing it back gives the record. |
| Urls.ReparseStable | src/resolve.rs:99 | The text of a parsed URL parses to the same URL. |
| Browser.FirstAccepted | src/browser.rs:65-94 | The first link in page order that joins and passes a test; none when no link does. |
| Browser.ResolveWithBrowser | src/browser.rs:55-101 | The link loop with early returns computes `BrowserOutcome`. |
| Browser.FirstAcceptedIs | src/browser.rs:65-94 | A link decides whenever all links before it were passed over. |
| Browser.BrowserSuccess | src/browser.rs:70-93 | A success has the page URL as origin. It is the joined form of some link that ends in an archive extension or whose host contains a hosting domain. It is returned as-is, not resolved further. |
| Browser.BrowserFailure | src/browser.rs:55-101 | Failure happens exactly when the browser gave no links, the page URL does not parse, or no link is accepted. A link that fails to join is skipped, not an error. |
| Download.SanitizeFilenameSpec | src/download.rs:210-217 | Same length, no forbidden character left, every other character unchanged, each forbidden one now `_`. |
| Download.SanitizeFilenameIdempotent | src/download.rs:210-217 | Sanitising twice equals sanitising once. |
| Download.SanitizeClean | src/download.rs:210-217 | A name without forbidden characters is kept. |
| Download.ContentDisposition | src/download.rs:177-208 | The header parser with the empty ext-value rejected: any name it gives is non-empty. |
| Download.EmptyExtValueWins | src/download.rs:179-191 | As written, `filename*=UTF-8''` followed by nothing or `;` yields the empty name whatever the plain form says. The corrected parser falls back to the plain form. |
| Download.ContentDispositionPrecedence | src/download.rs:179-205 | An ext-value that decodes to a name wins. When it is missing or fails to decode, the plain `filename=` decides. Both parsers agree except on the empty ext-value. |
| Download.ExtDecodePlainText | src/download.rs:185-188 | The ext-value is cut at the first `;`, trimmed and then decoded. Without escapes the name is that text, which is trimmed and has no `;`. |
| Download.PlainValueSpec | src/download.rs:194-207 | A plain name is non-empty, trimmed and free of `"`. |
| Download.LastSegment | src/download.rs:167 | The last `/`-separated piece: a suffix of the path without `/`, preceded by `/` when shorter than the path. |
| Download.ExtractFilenameSpec | src/download.rs:155-175 | A header name, when the parser as written gives one, wins and is sanitised; an empty ext-value therefore gives the name `""`. Otherwise a name exists exactly when the URL parses, its last segment is non-empty and it decodes, and that name is non-empty. Every derived name is free of forbidden characters. |
| Download.ExtractFilenameCorrectedSpec | src/download.rs:155-191 | With the corrected header parser, the name differs from the one as written only for an empty ext-value, and it is never empty. |
| Download.TrailingSlashNoName | src/download.rs:167-171 | A URL path ending in `/` gives no name from the URL. |
| Download.DriveUrlIsGoogleDrive | src/download.rs:132-134 | Every URL the Drive rule produces is recognised as a Google Drive URL. |
| Download.AssembleConfirmUrl | src/download.rs:137-153 | The form assembly computes `ConfirmUrl`: no form, no action or a bad action gives none; otherwise the action with the input pairs appended. |
| Download.AppendInputs | src/download.rs:145-150 | The input loop gives none at the first nameless input. Otherwise it appends every input's pair to the query. |
| Download.InputPairsSpec | src/download.rs:146-150 | The pairs exist exactly when every hidden input has a name. They are the inputs' names and values in document order, with a missing value read as `""`. |
| Download.ConfirmUrlQuery | src/download.rs:145-152 | Reading the confirmation URL back gives the action's own pairs followed by one pair per hidden input, in document order. |
| Download.Delays | src/download.rs:32-35 | One delay before each attempt after the first. |
| Download.DownloadWithRetry | src/download.rs:29-52 | The retry loop computes `Retry`, and the sleeps it takes are `Delays` of the attempts made. |
| Download.RetryFromSpec | src/download.rs:31-50 | From attempt `a` on: a success stops the loop, every earlier attempt failed, and the outcome is the last attempt's. |
| Download.RetrySpec | src/download.rs:29-52 | At most three attempts, every one before the last failed, and the outcome and state are the last attempt's. An error comes only after three failures and is the third one's. The waits are none, 4s, then 16s. |
| Download.AppendFileEffect | src/download.rs:113 | Writing to the open temporary file appends the data and touches nothing beside it. |
| Download.WriteBodyEffect | src/download.rs:110-114 | The body loop fails exactly when a chunk did not arrive. Otherwise the temporary file ends with the whole body. The file stays either way and nothing beside it changes. |
| Download.TempNameIsName | src/download.rs:96 | `.{name}.tmp` is one path component, different from the name. |
| Download.SavePaths | src/download.rs:95-96 | The destination and the temporary file lie side by side in the output directory. |
| Download.FinishEffect | src/download.rs:119-127 | The rename fails only onto a directory, and then nothing changes. Otherwise the temporary name is gone and the file is at its name, unless it is a web page, which is removed with an error. |
| Download.SaveAsEffect | src/download.rs:104-129 | The outcome of `save_response` by case: temp file not creatable, body broken off (temp left behind), rename onto a directory, a web page removed, or success with the whole body at the name. Nothing outside the two names changes. |
| Download.TempWritten | src/download.rs:104-114 | When the temporary file can be created, it then holds the whole body or the loop reports the broken chunk. |
| Download.EmptyExtValueNamesNothing | src/download.rs:155-162 | With the parser as written, an empty ext-value names the file `""`. The corrected parser takes the plain name, or falls back to the URL. |
| Download.SaveEmptyName | src/download.rs:93-119 | Saving under `""` renames `..tmp` onto the output directory itself, which fails with a rename error and leaves `..tmp` behind. |
| Download.SaveOntoOutputDir | src/download.rs:93-119 | Any name that adds no path component makes the rename onto the output directory fail with a rename error, leaving the temporary file behind. |
| Download.SaveResponse | src/download.rs:87-130 | `save_response` computes `SaveOutcome`: the name derived with the header parser as written, or the unsanitised fallback, then temp file, body loop, rename and HTML check. |
| Download.TryDownloadSpec | src/download.rs:55-85 | A non-Drive or non-HTML answer is saved as it is. A Drive HTML answer is never saved itself: either the confirmation URL's answer is saved, or an error is returned with nothing changed. A missing form gives the fixed message. |
| Download.RunTask | src/download.rs:251-297 | One spawned task computes `TaskOutcome`. |
| Download.SkippedWithoutDownload | src/download.rs:255-265 | A resolution error gives `Skipped(task.url, e)` with the file system untouched and no request made. |
| Download.TaskOutcomeSpec | src/download.rs:255-296 | Skipped happens exactly on a resolution error. A directory error is `Failed` with that error and nothing changed. Otherwise success is exactly the retry's success with its path, and an error means three attempts failed. Every failure names the task's URL. |
| Download.RunAll | src/download.rs:244-298 | One outcome per task. |
| Download.SpawnAll | src/download.rs:244-298 | The spawn loop produces the handles of `RunAll` in task order. |
| Download.JoinAll | src/download.rs:300-311 | One result per handle, in order; a panicked handle becomes `Failed("unknown", "task panicked: ...")`. |
| Download.ExecuteDownloads | src/download.rs:228-312 | Exactly one result per task in input order: task `i`'s own outcome, or the panic failure. |
| Download.RunAllSpec | src/download.rs:244-311 | Outcome `i` is task `i` run on the file system the tasks before it left. |
| Percent.DecodeEscapeAll | src/download.rs:173 | Percent-decoding undoes percent-encoding of any bytes. |
| Percent.DecodeInvalidByte | src/download.rs:187 | `%FF`, which is not UTF-8, fails to decode. |
| Text.TrimSpec | src/download.rs:186 | Trim cuts exactly the white space at both ends and leaves a slice that neither starts nor ends with white space. |
| Archive.Magic | src/archive.rs:19-21 | At most eight bytes, a prefix of the file. |
| Archive.MagicOverridesExtension | src/archive.rs:23-36 | A magic match decides whatever the extension is. |
| Archive.OnlyEightBytes | src/archive.rs:19-21 | Files with the same first eight bytes and path are detected the same. |
| Archive.LzhShapeDetection | src/archive.rs:23-35 | The LZH shape (at least five bytes, `-l` at offsets 2 and 3) gives LZH unless the bytes start with `PK`. |
| Archive.ShortFileByExtension | src/archive.rs:33-50 | Fewer than five bytes and no zip or RAR magic: the extension alone decides. |
| Archive.ExtensionIgnoresCase | src/archive.rs:38-42 | The extension test is case-insensitive. |
| Archive.KnownExtensions | src/archive.rs:44-50 | Exactly `zip`, `rar`, `7z`, `lzh` and `lha` (after lower-casing) are known; no extension is unknown. |
| Archive.WriteEntrySkip | src/archive.rs:86-90 | An entry is skipped exactly when its joined path fails the component-prefix test, and a skipped entry changes nothing. |
| Archive.WriteFileEffect | src/archive.rs:94-99 | A written file holds the entry's contents inside an existing directory. A read error stops with that error, unless a file-system call failed first, and the file keeps the bytes read before it. |
| Archive.WriteFileKeepsDirs | src/archive.rs:94-99 | Writing a file keeps every directory. |
| Archive.WriteDirEffect | src/archive.rs:92-93 | A directory entry creates its directory and touches nothing off the way to it. |
| Archive.WriteEntryKeepsDirs | src/archive.rs:86-100 | Writing any entry keeps every directory. |
| Archive.ParentEntryEscapes | src/archive.rs:86-87 | The test is lexical: `../x` passes it and lands on the sibling `x` of the output directory. |
| Paths.JoinStartsWith | src/archive.rs:86-87 | The joined path passes the test exactly when the entry name is relative or already below the output directory. |
| Paths.DotDotPassesTheTest | src/archive.rs:86-87 | `../x` passes the test but resolves outside the output directory. |
| Paths.AbsoluteFailsTheTest | src/archive.rs:86-87 | An absolute name outside the output directory is refused. |
| Paths.JoinNormalsInside | src/archive.rs:86-87 | A name of normal components resolves below the output directory. |
| Utf8.DecodeEncode | src/archive.rs:77-78 | A UTF-8 encoded name decodes to itself. |
| Utf8.EncodeDecode | src/archive.rs:77-83 | A byte name that is valid UTF-8 is the encoding of its decoding. Decoding accepts exactly encodings, and the rest go to Shift-JIS. |
| Archive.ExtractZipEntries | src/archive.rs:72-103 | The zip entry loop computes `ZipEntries`. |
| Archive.ZipKeepsDirs | src/archive.rs:72-101 | Unpacking a zip keeps every directory, including the output directory. |
| Archive.ExtractLzhEntries | src/archive.rs:143-174 | The LZH header loop computes `LzhEntries`. |
| Archive.LzhSkipMovesOn | src/archive.rs:150-156 | A skipped header moves on to the next one with nothing written. |
| Archive.LzhDirectoryNoCrc | src/archive.rs:158-167 | A directory header's CRC is never looked at. |
| Archive.LzhBadCrcStops | src/archive.rs:164-166 | A file with a bad CRC stops extraction after it was written, and it stays. |
| Archive.LzhKeepsDirs | src/archive.rs:143-172 | Unpacking LZH keeps every directory. |
| Archive.ExtractTo | src/archive.rs:55-66 | `extract` computes `Extract`. |
| Archive.ExtractSpec | src/archive.rs:55-66 | A detection error changes nothing. Once detected, the output directory exists before any entry. For zip and LZH it still exists at the end. |
| Archive.StemHasNoSlash | src/archive.rs:179-182 | The stem of a path whose normal components are names holds no `/`. |
| Paths.FromTextValid | src/archive.rs:179-184 | Every path read from text has only names as normal components. |
| Archive.WorkspaceName | src/archive.rs:179-184 | The workspace is the single component `.{stem}_extracted` under the base directory, with stem `extracted` when absent. |
| Paths.StemAndExtension | src/archive.rs:38-42 | Stem, `.` and extension together give the file name. |
| Paths.NoDotNoExtension | src/archive.rs:179-182 | A name without a later `.` has no extension and is its own stem. |
| Text.LowerIdempotent | src/archive.rs:41 | Lower-casing twice is lower-casing once. |
| Normalize.Flattened | src/normalize.rs:6-21 | The flattened form holds no lone subdirectory, and a directory stays a directory. |
| Normalize.FlattenedIdempotent | src/normalize.rs:6-8 | Flattening twice equals flattening once. |
| Normalize.LoneEntry | src/normalize.rs:11-21 | The loop goes on exactly when the directory lists one entry and it is a directory; otherwise there is no lone subdirectory. |
| Normalize.MoveStep | src/normalize.rs:26-30 | One rename moves an entry of the lone subdirectory up. The entry named like the subdirectory fails with `DirectoryNotEmpty`. |
| Normalize.MoveChildrenUp | src/normalize.rs:26-30 | Without a same-named entry, all entries go up, leaving the subdirectory empty. With one, the loop fails with `DirectoryNotEmpty`. |
| Normalize.ListSubdir | src/normalize.rs:26 | `read_dir` lists each entry of the subdirectory once. |
| Normalize.RemoveStep | src/normalize.rs:33 | Removing the emptied subdirectory leaves the directory listing what it held. |
| Normalize.NestedSameNameCollides | src/normalize.rs:26-30 | `dir/a/a/f` holds a lone subdirectory with an entry of its own name. |
| Normalize.FlattenSingleSubdirs | src/normalize.rs:9-37 | As written: success happens exactly when no lone subdirectory down the chain holds its own name, and then the directory is its flattened form. Otherwise the error is `DirectoryNotEmpty`. |
| Normalize.Flatten | src/normalize.rs:9-37 | Corrected: the lone subdirectory is first renamed aside, and every directory becomes its flattened form. |
| Normalize.Walkdir | src/normalize.rs:69-83 | Every file below the directory, each once, and no directory. Its location and file name are recorded. The call fails exactly when the path is not a directory. |
| Normalize.WalkAppend | src/normalize.rs:72-80 | The files of a new entry join those walked before. |
| Normalize.CopyFromFrame | src/normalize.rs:48-63 | The copy loop keeps every file and directory. It changes only locations on the way to `dest` and `dest`'s entries under free chart names. |
| Normalize.CopyFromCount | src/normalize.rs:57-61 | The count is the number of chart names that were free in `dest`, which is the number of copies made. |
| Normalize.CopyFromTakes | src/normalize.rs:56-61 | After success every chart name is taken in `dest`. |
| Normalize.CopyFromContents | src/normalize.rs:56-60 | A name that was free holds the bytes of the first chart file of that name in walk order; nothing is overwritten. |
| Normalize.CopyDiffFiles | src/normalize.rs:40-66 | A missing source gives 0 and no change. A file source is an error. Otherwise the walked files are copied by the loop. |
| Normalize.WalkedChartNames | src/normalize.rs:41-55 | The chart names are the names with lower-cased extension `bms`, `bme`, `bml` or `bmson` of files at any depth below the source. |
| Normalize.CopyDiffFilesSpec | src/normalize.rs:40-66 | After success every chart file below `src` has a namesake in `dest`. Each name `dest` lacked holds the first such file's bytes. The count is the number of names that were free. |
| Program.ReplaceForbidden | src/main.rs:282-287 | Each of the ten forbidden characters becomes `_`, every other character stays, and the length is unchanged. |
| Program.SanitizeDirNameSpec | src/main.rs:281-290 | The result has no forbidden character and no white space at either end. It is the replaced name with exactly its leading and trailing white space cut. |
| Program.SanitizeDirNameIdempotent | src/main.rs:281-290 | A clean name is kept, and sanitising twice equals sanitising once. |
| Program.MakeDirNameSpec | src/main.rs:273-279 | With clean pieces the name is `{symbol}{level}_{title}`. A missing level and title give `{symbol}__unknown`. |
| Program.FilterLevelSpec | src/main.rs:53-60 | With a level, exactly the entries of that level are kept, with their multiplicity. Without one, all entries are kept. |
| Program.FilterLevelAppend | src/main.rs:53-57 | Filtering keeps table order. |
| Program.GroupEntries | src/main.rs:244-271 | The map built in one pass equals `Grouped`: one group per directory name, made of the entries with that name. |
| Program.AddToGroup | src/main.rs:250-267 | The entry's group, empty when new, takes the base URL only while it has none, and a diff URL only when it is new. |
| Program.MembersSpec | src/main.rs:247-253 | An entry is a member of a group exactly when its directory name is the group's. |
| Program.EveryEntryGrouped | src/main.rs:247-253 | Every entry lands in the group keyed by its directory name. |
| Program.FirstUrlSpec | src/main.rs:255-260 | The base URL is the first non-empty `url`, with every earlier one missing or empty. There is none only when all are. |
| Program.FirstUrlAppend | src/main.rs:255-260 | A later entry never replaces the base URL. |
| Program.Dedup | src/main.rs:262-267 | No duplicates, and the same values. |
| Program.DedupOrder | src/main.rs:262-267 | The kept values come in order of first appearance. |
| Program.DiffValuesSpec | src/main.rs:262-263 | A diff value comes from some entry's non-empty `url_diff`, and every such value is one. |
| Program.GroupedSpec | src/main.rs:244-271 | A group's base URL is its entries' first non-empty `url`. Its diff URLs are their non-empty `url_diff` values, each once, in first-appearance order. |
| Program.DiffTasks | src/main.rs:96-103 | Diff task `i` is for URL `i`, with fallback `{dir}_diff{i}.zip`. |
| Program.FallbackNames | src/main.rs:89-100 | Different diff indexes give different fallback names, none equal to `{dir}.zip`. |
| Program.GroupTasksSpec | src/main.rs:84-104 | At most one base task comes first. Then, unless `no_diff`, one diff task per diff URL in order. All save into the entry directory. |
| Program.GroupTasksDistinct | src/main.rs:84-104 | No two tasks of a group share a fallback name. |
| Program.PushGroupTasks | src/main.rs:84-104 | The pushes append exactly the group's tasks. |
| Program.GenerateTasks | src/main.rs:68-105 | The task loop gives the groups' tasks in walk order, leaving out directories kept by `--skip-existing`. |
| Program.Tally | src/main.rs:127-149 | Each counter counts its kind of outcome. The failed and skipped log lines and the archives to unpack follow outcome order. |
| Program.TallyTotal | src/main.rs:205 | Success, skip and fail counts add up to the number of outcomes. |
| Program.LogLinesSpec | src/main.rs:140-147 | Every failed or skipped outcome leaves the line `url\treason`. |
| Program.LogLinesOnly | src/main.rs:140-147 | Conversely, every failure or skip line is `url\treason` of some failed or skipped outcome. |
| Text.NatTextInjective | src/main.rs:100 | Different indexes print differently. |
| Program.MoveStageStep | src/main.rs:338-344 | A taken name is left where it is; a free one moves from the workspace into the parent. |
| Program.MoveStageEnd | src/main.rs:338-344 | The parent keeps all its entries and gains the workspace's other entries. The workspace keeps only those whose names were taken. |
| Program.MoveTurn | src/main.rs:339-343 | The existence test fails exactly on a taken name, and the rename of a free name succeeds. |
| Program.MoveIfAbsent | src/main.rs:338-344 | The move loop never fails, and it leaves the parent as `MoveStage` says, with nothing else changed. |
| Program.CleanupEffect | src/main.rs:347-348 | The workspace is removed, and the archive when it is a file there; nothing else changes. |
| Program.UnpackedListingSpec | src/main.rs:327-351 | The listing reached when the flattening does not clash: the parent keeps every entry it had, gains the flattened workspace's entries under free names and nothing else. The workspace and the archive file are gone. |
| Program.ExtractAndNormalize | src/main.rs:327-351 | No parent is an error with no change. An extraction error is `ArchiveFailed`. A flattening that clashes (a lone subdirectory holding an entry of its own name) is `IoFailed(DirectoryNotEmpty)`, with only the workspace changed since extraction and the archive not removed. An unpackable archive succeeds with the parent listing `UnpackedListing` and nothing else changed. |

## Left out

- **Concurrency.** The tokio tasks, the `jobs` semaphore, the browser lock and the parallel unpacking are sequential here. A task runs on the file system the earlier tasks left, in task order (`Download.RunAll`). Which spawned task panics is the input `joinError`.
- **The network and the browser.** These are the inputs `Resolve.Web` and `Download.Http`: page fetch, href scan, `Url::join`, the browser's link list, GET with its status check, and the confirmation-form scan. Progress bars and the 3s browser settle delay are not modelled. Sleeps are returned as delay values.
- **URL parsing.** `Urls` is a simplified `Url` (scheme, host, path, query pairs) with no percent-encoding of query text. This is why `Download.ConfirmUrlQuery` and `Resolve.DriveIsStable` require names and values without `&` or `=`.
- Urls.Parse, Resolve.DispatchByHost and Download.ExtractFilename: `Parse` takes the longest run of scheme characters, requires the exact text `://` right after it, cuts the host at the first `/` or `?` and the path at the first `?`, and does nothing more. So the following differ from `url::Url::parse`:
  - Surrounding space and control characters are not trimmed, and tabs and newlines are not dropped. `" https://drive.google.com/file/d/x/view"` gives no URL, so the model skips the task with the invalid-URL error where the source applies the Drive rule.
  - A special scheme needs exactly two slashes. `https:/drive.google.com/file/d/x/view` gives no URL, and `https:///h.org/song.zip` parses with an empty host and the path `/h.org/song.zip`. The source reads both as `https://` followed by the host. A form without `://` such as `mailto:x` gives no URL, where the source accepts it.
  - The host may be empty or hold characters the source forbids, such as a space. `https://` parses with host `""` and passes through to download, where the source rejects it with `EmptyHost` and skips the task.
  - A scheme may start with a digit or a sign, which the source refuses.
  - A port or user info stays in the host. `https://drive.google.com:443/file/d/x/view` therefore passes through unchanged, where the source applies the Drive rule.
  - A `#fragment` stays in the path, or in the last query value.
  - `.` and `..` segments are not resolved, and `\` is not read as `/`.
  - IDNA and percent-encoding normalisation of the host are not done.
- ExtractFilenameSpec: its URL case is stated over `Urls.Parse`. So `https://h.org/song.zip#top` is named `song.zip#top`, where the source says `song.zip`, and `https://h.org/a/..` is named `..`, where the source has no name and takes the fallback. The two agree on URLs that start with a letter-led scheme followed right away by `://`, have a non-empty host of characters the source allows, and have no surrounding white space, port, user info, fragment, dot segments or backslashes.
- Resolve.ResolveDropbox, Resolve.ExtractLinks and Download.ConfirmUrl: `Urls.Show` rebuilds the query from its pairs, so the text they return differs from `Url::to_string` on queries `Url` keeps verbatim. A piece without `=` gains one (`?raw` becomes `?raw=&dl=1`, not `?raw&dl=1`). An empty piece is dropped (`?a=1&` becomes `?a=1&dl=1`, not `?a=1&&dl=1`). A port, user info or fragment is not kept.
- Download.SaveEmptyName and Download.SaveOntoOutputDir: only a rename error is promised, not its kind. The lexical paths drop the trailing separator of `out/` and `out/.`, so the model renames onto the output directory itself. The operating system instead reports "not a directory" or "busy", which the model does not tell apart.
- **Lower-casing** is ASCII only. `char::is_whitespace` is the Unicode White_Space set.
- **Paths.** Paths are lexical component lists. `..` is resolved as "the parent", with no symbolic links, permissions or timestamps.
- **Archive codecs.** Shift-JIS decoding, the zip and LZH readers, CRC computation and RAR/7z unpacking are the input `Archive.Codecs`. A RAR or 7z extraction may leave any file system state.
- **Helpers outside the shown files.** `archive::is_html` is a parameter. `normalize::contains_bms_files` and `extract_unprocessed_archives` are not part of this model. The `--skip-existing` check (src/main.rs:71-82) is the set `kept` of entry directories to skip. Removing a failed directory is left out.
- **HashMap order.** The order of groups is the parameter `order` of `Program.GenerateTasks`, which is unspecified in the program.
- **Directory listing order.** `read_dir` order is chosen arbitrarily by `Fs.ListDir`. Per-entry `entry?` errors cannot occur in the model.
- **The diff normalisation pass** (src/main.rs:155-195) is not modelled: it picks directories by name and calls `copy_diff_files`, whose behaviour `Normalize.CopyDiffFilesSpec` states. Also not modelled: `failed.log`, the summary printing, the floating-point rate, tracing, and the table fetch (src/table.rs) and CLI (src/cli.rs).
- **Error text.** Errors are values. Only the messages the program builds itself are spelled out, and anyhow's context chains are reduced to their outer message.
- **Counters.** The `u32` counters are unbounded naturals. Overflow needs over four billion downloads.
- **SongEntry fields.** `md5`, `sha256` and `artist` are not read by the modelled code and are dropped.
- Program.ExtractAndNormalize: the final state is stated only for an `Unpackable` archive: a valid path (which every path read from text is), extraction succeeding with the workspace a directory whose flattening does not clash. For other archives only the error outcomes are stated, and after a clash the partly flattened workspace is not spelled out.
- Program.MoveIfAbsent: the outcome is stated only when the workspace is a subdirectory of the parent and `names` lists it, which is how `Program.ExtractAndNormalize` calls it.
- Normalize.FlattenSingleSubdirs: after the `DirectoryNotEmpty` failure the directory is only said to be a directory. The partly moved listing is not spelled out.

## Code and design disagreements

- **Entry containment.** The design calls the entry test a zip-slip defence against `..`. The code's test is `output_dir.join(name).starts_with(output_dir)`, which compares components without resolving `..`. An entry `../x` passes it and is written beside the output directory. The model follows the code (`Archive.ParentEntryEscapes`, `Paths.DotDotPassesTheTest`).
- **Retries.** The design classifies 4xx answers, HTML-instead-of-archive and removed content as terminal errors that are not retried. The code retries every error up to three attempts. The model follows the code (`Download.RetrySpec`).
- **Confirmation pages.** The design recognises several providers' confirmation and removal pages, with a raw-link fallback. The code only handles Google Drive's `form#download-form`. The model follows the code.

## Findings

| source | as written | input that shows it | evidently intended | confidence | as-written member | corrected member |
|---|---|---|---|---|---|---|
| src/download.rs:179-191 | An ext-value that decodes is returned even when it is empty | `attachment; filename*=UTF-8''; filename="song.zip"` names the file `""`, and the download then fails renaming `..tmp` onto its own directory | An empty ext-value is no name, as in the plain branch, so `song.zip` is used | not executed | Download.EmptyExtValueWins | Download.ContentDisposition |
| src/normalize.rs:26-33 | The entries of the lone subdirectory are renamed into the directory holding it, including one with the subdirectory's own name | `dir/a/a/f`: renaming `dir/a/a` onto `dir/a` fails with `DirectoryNotEmpty`, and the partly flattened tree is left behind | Every lone subdirectory is lifted, whatever its entries are named | not executed | Normalize.NestedSameNameCollides | Normalize.Flatten |
