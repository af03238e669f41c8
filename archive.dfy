/** Archive handling: telling the format from the first bytes of the file
    (or, failing that, its extension), and unpacking zip and LZH archives
    entry by entry into a directory, refusing entries whose joined path is
    not below it. The codecs are inputs: an archive is read as its list of
    entries, and RAR and 7z unpacking is a single library call. */
module Archive {
  import opened Wrappers
  import opened Text
  import Utf8
  import opened Paths
  import opened Fs

  datatype Format = Zip | Rar | SevenZ | Lzh

  datatype ArchiveError =
    | Io(IoError)
    | UnknownFormat(path: Path)    // "unknown archive format for {path}"
    | Codec(message: string)       // an error of an archive library
    | BadCrc                       // `crc_check` of an LZH entry

  // ---------------------------------------------------------------------
  // Detection

  predicate HasPrefix(s: seq<byte>, prefix: seq<byte>) {
    |prefix| <= |s| && s[..|prefix|] == prefix
  }

  /** `PK` */
  const ZipMagic: seq<byte> := [0x50, 0x4B]
  /** `Rar!` */
  const RarMagic: seq<byte> := [0x52, 0x61, 0x72, 0x21]
  /** `7z\xBC\xAF\x27\x1C` */
  const SevenZMagic: seq<byte> := [0x37, 0x7A, 0xBC, 0xAF, 0x27, 0x1C]

  /** At least five bytes with `-l` at offsets 2 and 3 (`-lh5-`, `-lzs-`, ...). */
  predicate LzhShape(m: seq<byte>) {
    |m| >= 5 && m[2] == 0x2D && m[3] == 0x6C
  }

  /** The bytes `detect` reads: the first eight, or fewer in a short file. */
  function Magic(data: seq<byte>): (m: seq<byte>)
    ensures |m| <= 8 && HasPrefix(data, m)
  {
    if |data| <= 8 then data else data[..8]
  }

  /** The magic tests, in the order `detect` makes them. */
  function ByMagic(m: seq<byte>): Option<Format> {
    if HasPrefix(m, ZipMagic) then Some(Zip)
    else if HasPrefix(m, RarMagic) then Some(Rar)
    else if HasPrefix(m, SevenZMagic) then Some(SevenZ)
    else if LzhShape(m) then Some(Lzh)
    else None
  }

  /** The extension test, after lower-casing; no extension is the empty
      one. */
  function ByExtension(ext: Option<string>): Option<Format> {
    var e := Lower(ext.GetOr(""));
    if e == "zip" then Some(Zip)
    else if e == "rar" then Some(Rar)
    else if e == "7z" then Some(SevenZ)
    else if e == "lzh" || e == "lha" then Some(Lzh)
    else None
  }

  function DetectFormat(m: seq<byte>, ext: Option<string>): Option<Format> {
    if ByMagic(m).Some? then ByMagic(m) else ByExtension(ext)
  }

  /** `ArchiveFormat::detect(path)` */
  function Detect(fs: Fs, path: Path): Result<Format, ArchiveError> {
    match ReadAll(fs, path)
    case Err(e) => Err(Io(e))
    case Ok(data) =>
      match DetectFormat(Magic(data), Extension(path))
      case Some(f) => Ok(f)
      case None => Err(UnknownFormat(path))
  }

  /** Opening and reading a file. */
  function ReadAll(fs: Fs, path: Path): Result<seq<byte>, IoError> {
    match Get(fs.root, Abs(fs, path))
    case None => Err(MissingKind(fs.root, Abs(fs, path)))
    case Some(Dir(_)) => Err(IsADirectory)
    case Some(File(data)) => Ok(data)
  }

  /** A magic match decides whatever the extension says. */
  lemma MagicOverridesExtension(m: seq<byte>, ext1: Option<string>, ext2: Option<string>)
    requires ByMagic(m).Some?
    ensures DetectFormat(m, ext1) == DetectFormat(m, ext2) == ByMagic(m)
  {
  }

  /** Only the first eight bytes count. */
  lemma OnlyEightBytes(fs: Fs, path: Path, other: seq<byte>)
    requires ReadAll(fs, path).Ok? && Magic(ReadAll(fs, path).value) == Magic(other)
    ensures Detect(fs, path).Ok? <==> DetectFormat(Magic(other), Extension(path)).Some?
    ensures Detect(fs, path).Ok? ==> Detect(fs, path).value == DetectFormat(Magic(other), Extension(path)).value
  {
  }

  /** The LZH shape rules out RAR and 7z, whose third byte differs, but not
      zip: an LZH header starting with `PK` is taken for a zip archive. */
  lemma LzhShapeDetection(m: seq<byte>, ext: Option<string>)
    requires LzhShape(m)
    ensures DetectFormat(m, ext) == if HasPrefix(m, ZipMagic) then Some(Zip) else Some(Lzh)
  {
  }

  /** Fewer than five bytes and no magic: the extension alone decides. */
  lemma ShortFileByExtension(m: seq<byte>, ext: Option<string>)
    requires |m| < 5 && !HasPrefix(m, ZipMagic) && !HasPrefix(m, RarMagic)
    ensures DetectFormat(m, ext) == ByExtension(ext)
  {
  }

  /** The extension test ignores case. */
  lemma ExtensionIgnoresCase(ext: string)
    ensures ByExtension(Some(ext)) == ByExtension(Some(Lower(ext)))
  {
    LowerIdempotent(ext);
  }

  /** Exactly five lower-cased extensions are known. */
  lemma KnownExtensions(ext: Option<string>)
    ensures ByExtension(ext).Some? <==> Lower(ext.GetOr("")) in {"zip", "rar", "7z", "lzh", "lha"}
  {
  }

  // ---------------------------------------------------------------------
  // Writing entries

  /** An entry's contents as the decoder delivers them: the bytes that
      arrived and, when the read broke off, its error. */
  datatype Contents = Contents(data: seq<byte>, failure: Option<string>)

  /** What one entry did: skipped by the containment test, written, or the
      error that stopped the extraction. */
  datatype Step = Skipped | Written | Stopped(error: ArchiveError)

  /** The path an entry named `name` is written to. */
  function EntryPath(outputDir: Path, name: string): Path {
    Join(outputDir, FromText(name))
  }

  /** Writing one entry: refused unless its path starts with the output
      directory; a directory is created with its parents. */
  function WriteEntry(fs: Fs, outputDir: Path, name: string, isDir: bool, contents: Contents)
    : (Step, Fs)
  {
    var path := EntryPath(outputDir, name);
    if !Paths.StartsWith(path, outputDir) then (Skipped, fs)
    else if isDir then
      match CreateDirAll(fs, path)
      case Err(e) => (Stopped(Io(e)), fs)
      case Ok(fs1) => (Written, fs1)
    else WriteFile(fs, path, contents)
  }

  /** A file entry gets its parent created, is created empty and is then
      filled with the bytes that arrive; a read error stops the extraction
      with the bytes read before it in the file. */
  function WriteFile(fs: Fs, path: Path, contents: Contents): (Step, Fs) {
    var parent := match Parent(path) case None => Ok(fs) case Some(up) => CreateDirAll(fs, up);
    match parent
    case Err(e) => (Stopped(Io(e)), fs)
    case Ok(fs1) =>
      match CreateFile(fs1, path, [])
      case Err(e) => (Stopped(Io(e)), fs1)
      case Ok(_) =>
        var fs2 := CreateFile(fs1, path, contents.data).value;
        match contents.failure
        case Some(e) => (Stopped(Codec(e)), fs2)
        case None => (Written, fs2)
  }

  /** The containment test alone decides whether an entry is skipped, and a
      skipped entry leaves no trace. */
  lemma WriteEntrySkip(fs: Fs, outputDir: Path, name: string, isDir: bool, contents: Contents)
    ensures var (step, fs') := WriteEntry(fs, outputDir, name, isDir, contents);
      && (!Paths.StartsWith(EntryPath(outputDir, name), outputDir) <==> step == Skipped)
      && (step == Skipped ==> fs' == fs)
  {
  }

  /** A written file holds the entry's contents inside a directory. A read
      error of the contents stops the extraction with that error, unless a
      file system call failed first, and leaves the file holding the bytes
      read before it. */
  lemma WriteFileEffect(fs: Fs, path: Path, contents: Contents)
    ensures var (step, fs') := WriteFile(fs, path, contents); var a := Abs(fs, path);
      && step != Skipped
      && (step == Written ==>
            contents.failure.None? && a != [] && Get(fs'.root, a) == Some(File(contents.data)) && IsDirAt(fs'.root, Init(a)))
      && (step.Stopped? && contents.failure.Some? ==>
            || (step.error == Codec(contents.failure.value) && a != [] && Get(fs'.root, a) == Some(File(contents.data)))
            || step.error.Io?)
      && (step.Stopped? && contents.failure.None? ==> step.error.Io?)
  {
    var parent := match Parent(path) case None => Ok(fs) case Some(up) => CreateDirAll(fs, up);
    if parent.Ok? && CreateFile(parent.value, path, []).Ok? {
      var fs1 := parent.value;
      var t := CreateFile(fs1, path, contents.data).value.root;
      CreateFileEffect(fs1, path, contents.data, []);
      ParentIsDir(t, Abs(fs, path));
    }
  }

  /** Writing a file keeps every directory there was. */
  lemma WriteFileKeepsDirs(fs: Fs, path: Path, contents: Contents, q: seq<string>)
    requires IsDirAt(fs.root, q)
    ensures IsDirAt(WriteFile(fs, path, contents).1.root, q)
    ensures WriteFile(fs, path, contents).1.cwd == fs.cwd
  {
    var parent := match Parent(path) case None => Ok(fs) case Some(up) => CreateDirAll(fs, up);
    if parent.Ok? {
      var fs1 := parent.value;
      if Parent(path).Some? {
        CreateDirAllKeepsDirs(fs, Parent(path).value, q);
      }
      if CreateFile(fs1, path, []).Ok? {
        CreateFileKeepsDirs(fs1, path, contents.data, q);
      }
    }
  }

  /** A written directory exists and nothing off the line to it changed. */
  lemma WriteDirEffect(fs: Fs, outputDir: Path, name: string, contents: Contents, q: seq<string>)
    requires WriteEntry(fs, outputDir, name, true, contents).0 == Written
    ensures var fs' := WriteEntry(fs, outputDir, name, true, contents).1; var a := Abs(fs, EntryPath(outputDir, name));
      IsDirAt(fs'.root, a) && (!IsPrefix(q, a) ==> Get(fs'.root, q) == Get(fs.root, q))
  {
    CreateDirAllKeepsDirs(fs, EntryPath(outputDir, name), q);
  }

  /** Writing any entry keeps every directory there was. */
  lemma WriteEntryKeepsDirs(fs: Fs, outputDir: Path, name: string, isDir: bool, contents: Contents,
                            q: seq<string>)
    requires IsDirAt(fs.root, q)
    ensures IsDirAt(WriteEntry(fs, outputDir, name, isDir, contents).1.root, q)
    ensures WriteEntry(fs, outputDir, name, isDir, contents).1.cwd == fs.cwd
  {
    var path := EntryPath(outputDir, name);
    if Paths.StartsWith(path, outputDir) {
      if isDir {
        if CreateDirAll(fs, path).Ok? {
          CreateDirAllKeepsDirs(fs, path, q);
        }
      } else {
        WriteFileKeepsDirs(fs, path, contents, q);
      }
    }
  }

  /** The containment test compares components, not resolved locations: an
      entry named `../x` passes it and names the sibling `x` of the output
      directory, which is never below it. */
  lemma ParentEntryEscapes(fs: Fs, outputDir: Path)
    requires outputDir != [] && Abs(fs, outputDir) != []
    ensures Paths.StartsWith(EntryPath(outputDir, "../x"), outputDir)
    ensures var b := Abs(fs, outputDir); var a := Abs(fs, EntryPath(outputDir, "../x"));
      a == b[..|b| - 1] + ["x"] && |a| == |b|
  {
    DotDotPassesTheTest(fs.cwd, outputDir);
  }

  // ---------------------------------------------------------------------
  // Zip

  datatype ZipEntry = ZipEntry(rawName: seq<byte>, isDir: bool, contents: Contents)

  /** The name of a zip entry: its bytes as UTF-8 when they are valid,
      otherwise their Shift-JIS reading. */
  function ZipEntryName(raw: seq<byte>, shiftJis: seq<byte> -> string): string {
    match Utf8.Decode(raw)
    case Some(s) => s
    case None => shiftJis(raw)
  }

  /** The entry loop of `extract_zip`: an entry that cannot be read stops
      it. */
  function ZipEntries(fs: Fs, outputDir: Path, entries: seq<Result<ZipEntry, string>>, shiftJis: seq<byte> -> string)
    : (Result<(), ArchiveError>, Fs)
    decreases |entries|
  {
    if entries == [] then (Ok(()), fs)
    else if entries[0].Err? then (Err(Codec(entries[0].error)), fs)
    else
      var e := entries[0].value;
      var (step, fs1) := WriteEntry(fs, outputDir, ZipEntryName(e.rawName, shiftJis), e.isDir, e.contents);
      if step.Stopped? then (Err(step.error), fs1)
      else ZipEntries(fs1, outputDir, entries[1..], shiftJis)
  }

  method ExtractZipEntries(fs: Fs, outputDir: Path, entries: seq<Result<ZipEntry, string>>, shiftJis: seq<byte> -> string)
    returns (r: Result<(), ArchiveError>, fs': Fs)
    ensures (r, fs') == ZipEntries(fs, outputDir, entries, shiftJis)
  {
    fs' := fs;
    for i := 0 to |entries|
      invariant ZipEntries(fs, outputDir, entries, shiftJis) == ZipEntries(fs', outputDir, entries[i..], shiftJis)
    {
      assert entries[i..][0] == entries[i] && entries[i..][1..] == entries[i + 1..];
      var entry := entries[i];
      if entry.Err? {
        return Err(Codec(entry.error)), fs';
      }
      var name := ZipEntryName(entry.value.rawName, shiftJis);
      var (step, next) := WriteEntry(fs', outputDir, name, entry.value.isDir, entry.value.contents);
      if step.Stopped? {
        return Err(step.error), next;
      }
      fs' := next;
    }
    assert entries[|entries|..] == [];
    return Ok(()), fs';
  }

  // ---------------------------------------------------------------------
  // LZH

  /** An LZH header: its path name (lossily decoded), whether it is a
      directory, the decoded contents and whether the CRC matches. */
  datatype LzhEntry = LzhEntry(pathName: string, isDir: bool, contents: Contents, crcOk: bool)

  /** The headers the reader yields, and the error `next_file` reported
      after the last of them, if any. */
  datatype LzhListing = LzhListing(entries: seq<LzhEntry>, stop: Option<string>)

  /** The header loop of `extract_lzh`: a CRC check after every file that
      was written, none after a directory or a skipped entry. */
  function LzhEntries(fs: Fs, outputDir: Path, entries: seq<LzhEntry>, stop: Option<string>): (Result<(), ArchiveError>, Fs)
    decreases |entries|
  {
    if entries == [] then (if stop.Some? then Err(Codec(stop.value)) else Ok(()), fs)
    else
      var e := entries[0];
      var (step, fs1) := WriteEntry(fs, outputDir, e.pathName, e.isDir, e.contents);
      if step.Stopped? then (Err(step.error), fs1)
      else if step == Written && !e.isDir && !e.crcOk then (Err(BadCrc), fs1)
      else LzhEntries(fs1, outputDir, entries[1..], stop)
  }

  method ExtractLzhEntries(fs: Fs, outputDir: Path, listing: LzhListing) returns (r: Result<(), ArchiveError>, fs': Fs)
    ensures (r, fs') == LzhEntries(fs, outputDir, listing.entries, listing.stop)
  {
    fs' := fs;
    var entries := listing.entries;
    var i := 0;
    while i < |entries|
      invariant 0 <= i <= |entries|
      invariant LzhEntries(fs, outputDir, entries, listing.stop) == LzhEntries(fs', outputDir, entries[i..], listing.stop)
    {
      assert entries[i..][0] == entries[i] && entries[i..][1..] == entries[i + 1..];
      var header := entries[i];
      var (step, next) := WriteEntry(fs', outputDir, header.pathName, header.isDir, header.contents);
      if step.Stopped? {
        return Err(step.error), next;
      }
      fs' := next;
      if step == Written && !header.isDir && !header.crcOk {
        return Err(BadCrc), fs';
      }
      i := i + 1;
    }
    assert entries[i..] == [];
    if listing.stop.Some? {
      return Err(Codec(listing.stop.value)), fs';
    }
    return Ok(()), fs';
  }

  /** A skipped header moves on to the next one, with nothing written. */
  lemma LzhSkipMovesOn(fs: Fs, outputDir: Path, e: LzhEntry, rest: seq<LzhEntry>, stop: Option<string>)
    requires !Paths.StartsWith(EntryPath(outputDir, e.pathName), outputDir)
    ensures LzhEntries(fs, outputDir, [e] + rest, stop) == LzhEntries(fs, outputDir, rest, stop)
  {
    assert ([e] + rest)[1..] == rest;
  }

  /** The CRC of a directory header is never looked at. */
  lemma LzhDirectoryNoCrc(fs: Fs, outputDir: Path, e: LzhEntry, rest: seq<LzhEntry>, stop: Option<string>, crcOk: bool)
    requires e.isDir
    ensures LzhEntries(fs, outputDir, [e.(crcOk := crcOk)] + rest, stop) == LzhEntries(fs, outputDir, [e] + rest, stop)
  {
    assert ([e.(crcOk := crcOk)] + rest)[1..] == rest && ([e] + rest)[1..] == rest;
  }

  /** A file whose CRC does not match stops the extraction right after it
      was written, so it stays behind. */
  lemma LzhBadCrcStops(fs: Fs, outputDir: Path, e: LzhEntry, rest: seq<LzhEntry>, stop: Option<string>)
    requires !e.isDir && !e.crcOk && e.contents.failure.None?
    requires WriteEntry(fs, outputDir, e.pathName, e.isDir, e.contents).0 == Written
    ensures var (r, fs') := LzhEntries(fs, outputDir, [e] + rest, stop);
      r == Err(BadCrc) && Get(fs'.root, Abs(fs, EntryPath(outputDir, e.pathName))) == Some(File(e.contents.data))
  {
    WriteFileEffect(fs, EntryPath(outputDir, e.pathName), e.contents);
  }

  /** Unpacking keeps every directory there was, the output directory
      above all. */
  lemma {:induction false} ZipKeepsDirs(fs: Fs, outputDir: Path, entries: seq<Result<ZipEntry, string>>,
                                          shiftJis: seq<byte> -> string, q: seq<string>)
    requires IsDirAt(fs.root, q)
    ensures IsDirAt(ZipEntries(fs, outputDir, entries, shiftJis).1.root, q)
    ensures ZipEntries(fs, outputDir, entries, shiftJis).1.cwd == fs.cwd
    decreases |entries|
  {
    if entries != [] && entries[0].Ok? {
      var e := entries[0].value;
      var name := ZipEntryName(e.rawName, shiftJis);
      WriteEntryKeepsDirs(fs, outputDir, name, e.isDir, e.contents, q);
      var fs1 := WriteEntry(fs, outputDir, name, e.isDir, e.contents).1;
      ZipKeepsDirs(fs1, outputDir, entries[1..], shiftJis, q);
    }
  }

  lemma {:induction false} LzhKeepsDirs(fs: Fs, outputDir: Path, entries: seq<LzhEntry>, stop: Option<string>, q: seq<string>)
    requires IsDirAt(fs.root, q)
    ensures IsDirAt(LzhEntries(fs, outputDir, entries, stop).1.root, q)
    ensures LzhEntries(fs, outputDir, entries, stop).1.cwd == fs.cwd
    decreases |entries|
  {
    if entries != [] {
      var e := entries[0];
      WriteEntryKeepsDirs(fs, outputDir, e.pathName, e.isDir, e.contents, q);
      var fs1 := WriteEntry(fs, outputDir, e.pathName, e.isDir, e.contents).1;
      LzhKeepsDirs(fs1, outputDir, entries[1..], stop, q);
    }
  }

  // ---------------------------------------------------------------------
  // Extraction

  /** The archive libraries: zip and LZH as entry lists, RAR and 7z as a
      call that unpacks into the output directory. */
  datatype Codecs = Codecs(
    zip: seq<byte> -> Result<seq<Result<ZipEntry, string>>, string>,
    lzh: seq<byte> -> Result<LzhListing, string>,
    shiftJis: seq<byte> -> string,
    unpack: (Format, Fs, Path, Path) -> (Result<(), string>, Fs))

  /** The outcome of `extract(archive, outputDir)` and the file system
      after it. */
  function Extract(fs: Fs, archive: Path, outputDir: Path, codecs: Codecs): (Result<(), ArchiveError>, Fs) {
    match Detect(fs, archive)
    case Err(e) => (Err(e), fs)
    case Ok(format) =>
      match CreateDirAll(fs, outputDir)
      case Err(e) => (Err(Io(e)), fs)
      case Ok(fs1) => Unpack(fs1, format, archive, outputDir, codecs)
  }

  function Unpack(fs: Fs, format: Format, archive: Path, outputDir: Path, codecs: Codecs): (Result<(), ArchiveError>, Fs) {
    if format == Zip || format == Lzh then
      match ReadAll(fs, archive)
      case Err(e) => (Err(Io(e)), fs)
      case Ok(data) =>
        if format == Zip then
          match codecs.zip(data)
          case Err(e) => (Err(Codec(e)), fs)
          case Ok(entries) => ZipEntries(fs, outputDir, entries, codecs.shiftJis)
        else
          match codecs.lzh(data)
          case Err(e) => (Err(Codec(e)), fs)
          case Ok(listing) => LzhEntries(fs, outputDir, listing.entries, listing.stop)
    else
      var (r, fs') := codecs.unpack(format, fs, archive, outputDir);
      (if r.Ok? then Ok(()) else Err(Codec(r.error)), fs')
  }

  /** `extract` */
  method ExtractTo(fs: Fs, archive: Path, outputDir: Path, codecs: Codecs) returns (r: Result<(), ArchiveError>, fs': Fs)
    ensures (r, fs') == Extract(fs, archive, outputDir, codecs)
  {
    var format := Detect(fs, archive);
    if format.Err? {
      return Err(format.error), fs;
    }
    var created := CreateDirAll(fs, outputDir);
    if created.Err? {
      return Err(Io(created.error)), fs;
    }
    fs' := created.value;
    var f := format.value;
    if f == Zip || f == Lzh {
      var data := ReadAll(fs', archive);
      if data.Err? {
        return Err(Io(data.error)), fs';
      }
      if f == Zip {
        var entries := codecs.zip(data.value);
        if entries.Err? {
          return Err(Codec(entries.error)), fs';
        }
        r, fs' := ExtractZipEntries(fs', outputDir, entries.value, codecs.shiftJis);
      } else {
        var listing := codecs.lzh(data.value);
        if listing.Err? {
          return Err(Codec(listing.error)), fs';
        }
        r, fs' := ExtractLzhEntries(fs', outputDir, listing.value);
      }
    } else {
      var (unpacked, next) := codecs.unpack(f, fs', archive, outputDir);
      r := if unpacked.Ok? then Ok(()) else Err(Codec(unpacked.error));
      fs' := next;
    }
  }

  /** The format is known before anything is created: a file that is not an
      archive leaves the file system as it was. Once detected, the output
      directory exists before the first entry and, for zip and LZH, still
      exists at the end whatever happened. */
  lemma ExtractSpec(fs: Fs, archive: Path, outputDir: Path, codecs: Codecs)
    ensures Detect(fs, archive).Err? ==> Extract(fs, archive, outputDir, codecs) == (Err(Detect(fs, archive).error), fs)
    ensures Detect(fs, archive).Ok? && CreateDirAll(fs, outputDir).Ok? ==>
      var fs1 := CreateDirAll(fs, outputDir).value;
      && IsDir(fs1, outputDir)
      && Extract(fs, archive, outputDir, codecs) == Unpack(fs1, Detect(fs, archive).value, archive, outputDir, codecs)
      && (Detect(fs, archive).value in {Zip, Lzh} ==> IsDir(Extract(fs, archive, outputDir, codecs).1, outputDir))
  {
    if Detect(fs, archive).Ok? && CreateDirAll(fs, outputDir).Ok? {
      var fs1 := CreateDirAll(fs, outputDir).value;
      var q := Abs(fs1, outputDir);
      if ReadAll(fs1, archive).Ok? {
        var data := ReadAll(fs1, archive).value;
        if codecs.zip(data).Ok? {
          ZipKeepsDirs(fs1, outputDir, codecs.zip(data).value, codecs.shiftJis, q);
        }
        if codecs.lzh(data).Ok? {
          LzhKeepsDirs(fs1, outputDir, codecs.lzh(data).value.entries, codecs.lzh(data).value.stop, q);
        }
      }
    }
  }

  // ---------------------------------------------------------------------
  // The workspace

  /** The stem the workspace is named after. */
  function WorkspaceStem(archive: Path): string {
    FileStem(archive).GetOr("extracted")
  }

  function Workspace(archive: Path, baseDir: Path): Path {
    Join(baseDir, FromText("." + WorkspaceStem(archive) + "_extracted"))
  }

  /** `extract_archive`: unpacks into `base_dir/.{stem}_extracted` and
      returns that path. */
  function ExtractArchive(fs: Fs, archive: Path, baseDir: Path, codecs: Codecs): (Result<Path, ArchiveError>, Fs) {
    var dir := Workspace(archive, baseDir);
    var (r, fs') := Extract(fs, archive, dir, codecs);
    (if r.Ok? then Ok(dir) else Err(r.error), fs')
  }

  /** The stem of a valid path's file name is part of one component, so it
      holds no `/`. */
  lemma StemHasNoSlash(archive: Path)
    requires ValidPath(archive)
    ensures forall i :: 0 <= i < |WorkspaceStem(archive)| ==> WorkspaceStem(archive)[i] != '/'
  {
    if FileName(archive).Some? {
      var n := FileName(archive).value;
      assert IsName(n);
      assert forall i :: 0 <= i < |StemOf(n)| ==> StemOf(n)[i] == n[i];
    }
  }

  /** The workspace is a hidden directory beside the other contents of
      `base_dir`, named after the archive's stem. */
  lemma WorkspaceName(fs: Fs, archive: Path, baseDir: Path)
    requires ValidPath(archive)
    ensures Workspace(archive, baseDir) == Join(baseDir, [Normal("." + WorkspaceStem(archive) + "_extracted")])
    ensures Abs(fs, Workspace(archive, baseDir)) == Abs(fs, baseDir) + ["." + WorkspaceStem(archive) + "_extracted"]
    ensures FileStem(archive).None? ==> WorkspaceStem(archive) == "extracted"
  {
    var n := "." + WorkspaceStem(archive) + "_extracted";
    StemHasNoSlash(archive);
    assert n[0] == '.' && |n| >= 11;
    forall i | 0 <= i < |n| ensures n[i] != '/' {
      if 1 <= i <= |WorkspaceStem(archive)| {
        assert n[i] == WorkspaceStem(archive)[i - 1];
      }
    }
    FromTextName(n);
    AbsChild(fs, baseDir, n);
  }
}
