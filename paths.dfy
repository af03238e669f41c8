/** Unix paths the way Rust's `std::path` treats them: purely textual
    (lexical) operations on the list of components. `Path::components`
    drops empty pieces and `.` except a leading `.`, and keeps `..`
    as it is; nothing here looks at the file system. `Resolve` is the
    separate step the operating system takes when a path is used. */
module Paths {
  import opened Wrappers

  datatype Component = RootDir | CurDir | ParentDir | Normal(name: string)

  /** A path as its list of components. */
  type Path = seq<Component>

  /** The first `/`-separated piece of `s`. */
  function FirstPiece(s: string): (k: nat)
    ensures k <= |s|
    ensures forall i :: 0 <= i < k ==> s[i] != '/'
    ensures k < |s| ==> s[k] == '/'
  {
    if s == [] || s[0] == '/' then 0 else 1 + FirstPiece(s[1..])
  }

  function PieceComponent(piece: string, first: bool): Path {
    if piece == [] then []
    else if piece == "." then (if first then [CurDir] else [])
    else if piece == ".." then [ParentDir]
    else [Normal(piece)]
  }

  function Pieces(s: string, first: bool): Path
    decreases |s|
  {
    var k := FirstPiece(s);
    PieceComponent(s[..k], first) + (if k == |s| then [] else Pieces(s[k + 1..], false))
  }

  /** `Path::new(s).components()` */
  function FromText(s: string): Path {
    if s != [] && s[0] == '/' then [RootDir] + Pieces(s[1..], false) else Pieces(s, true)
  }

  predicate IsAbsolute(p: Path) {
    p != [] && p[0] == RootDir
  }

  /** `base.join(p)`: an absolute `p` replaces `base`; otherwise `p` is
      appended (a `.` at its front then disappears from the components). */
  function Join(base: Path, p: Path): Path {
    if IsAbsolute(p) || base == [] then p
    else if p != [] && p[0] == CurDir then base + p[1..]
    else base + p
  }

  /** `p.starts_with(base)`: compares whole components, not characters. */
  predicate StartsWith(p: Path, base: Path) {
    |base| <= |p| && p[..|base|] == base
  }

  /** `p.parent()` */
  function Parent(p: Path): (r: Option<Path>)
    ensures r.Some? ==> |r.value| + 1 == |p| && StartsWith(p, r.value)
  {
    if p == [] || p[|p| - 1] == RootDir then None else Some(p[..|p| - 1])
  }

  /** `p.file_name()`: the last component when it is a normal name. */
  function FileName(p: Path): Option<string> {
    if p != [] && p[|p| - 1].Normal? then Some(p[|p| - 1].name) else None
  }

  /** The index of the last `.` in `name`. */
  function LastDot(name: string): (r: Option<nat>)
    ensures r.Some? ==> r.value < |name| && name[r.value] == '.'
    ensures r.Some? ==> forall i :: r.value < i < |name| ==> name[i] != '.'
    ensures r.None? ==> forall i :: 0 <= i < |name| ==> name[i] != '.'
  {
    if name == [] then None
    else if name[|name| - 1] == '.' then Some(|name| - 1)
    else LastDot(name[..|name| - 1])
  }

  /** The stem of a file name: everything before the last `.`, unless that
      `.` is the first character or there is none. */
  function StemOf(name: string): string {
    match LastDot(name)
    case Some(i) => if i == 0 then name else name[..i]
    case None => name
  }

  function ExtensionOf(name: string): Option<string> {
    match LastDot(name)
    case Some(i) => if i == 0 then None else Some(name[i + 1..])
    case None => None
  }

  /** `p.file_stem()` */
  function FileStem(p: Path): Option<string> {
    match FileName(p)
    case Some(n) => Some(StemOf(n))
    case None => None
  }

  /** `p.extension()` */
  function Extension(p: Path): Option<string> {
    match FileName(p)
    case Some(n) => ExtensionOf(n)
    case None => None
  }

  /** A path with a parent and a file name is its parent joined with that
      name. */
  lemma ParentAndName(p: Path)
    requires Parent(p).Some? && FileName(p).Some?
    ensures p == Join(Parent(p).value, [Normal(FileName(p).value)])
  {
    assert p == p[..|p| - 1] + [p[|p| - 1]];
  }

  /** A name is a single normal component. */
  predicate IsName(n: string) {
    n != [] && n != "." && n != ".." && forall i :: 0 <= i < |n| ==> n[i] != '/'
  }

  /** A path as `Path::components` yields it: every normal component is a
      name, so none holds `/`. */
  predicate ValidPath(p: Path) {
    forall i :: 0 <= i < |p| && p[i].Normal? ==> IsName(p[i].name)
  }

  lemma ValidConcat(a: Path, b: Path)
    requires ValidPath(a) && ValidPath(b)
    ensures ValidPath(a + b)
  {
    forall i | 0 <= i < |a + b| && (a + b)[i].Normal? ensures IsName((a + b)[i].name) {
      if i >= |a| {
        assert (a + b)[i] == b[i - |a|];
      }
    }
  }

  lemma {:induction false} PiecesValid(s: string, first: bool)
    ensures ValidPath(Pieces(s, first))
    decreases |s|
  {
    var k := FirstPiece(s);
    var piece := s[..k];
    assert ValidPath(PieceComponent(piece, first));
    if k < |s| {
      PiecesValid(s[k + 1..], false);
      ValidConcat(PieceComponent(piece, first), Pieces(s[k + 1..], false));
    } else {
      assert PieceComponent(piece, first) + [] == PieceComponent(piece, first);
    }
  }

  /** Every path read from text is valid. */
  lemma FromTextValid(s: string)
    ensures ValidPath(FromText(s))
  {
    if s != [] && s[0] == '/' {
      PiecesValid(s[1..], false);
      ValidConcat([RootDir], Pieces(s[1..], false));
    } else {
      PiecesValid(s, true);
    }
  }

  /** A name is one normal component. */
  lemma FromTextName(n: string)
    requires IsName(n)
    ensures FromText(n) == [Normal(n)]
  {
    assert FirstPiece(n) == |n|;
    assert n[..|n|] == n;
  }

  /** The path of normal components `names`. */
  function Normals(names: seq<string>): (p: Path)
    ensures |p| == |names|
    ensures forall i :: 0 <= i < |p| ==> p[i] == Normal(names[i])
  {
    if names == [] then [] else [Normal(names[0])] + Normals(names[1..])
  }

  // ---------------------------------------------------------------------
  // Resolution by the operating system

  function Step(at: seq<string>, c: Component): seq<string> {
    match c
    case RootDir => []
    case CurDir => at
    case ParentDir => if at == [] then [] else at[..|at| - 1]
    case Normal(n) => at + [n]
  }

  function ResolveFrom(at: seq<string>, p: Path): seq<string>
    decreases |p|
  {
    if p == [] then at else ResolveFrom(Step(at, p[0]), p[1..])
  }

  /** The absolute location `p` names, relative to the working directory
      `cwd`, with `..` taken as "the parent" (no symbolic links). */
  function Resolve(cwd: seq<string>, p: Path): seq<string> {
    ResolveFrom(cwd, p)
  }

  lemma {:induction false} ResolveAppend(at: seq<string>, p: Path, q: Path)
    ensures ResolveFrom(at, p + q) == ResolveFrom(ResolveFrom(at, p), q)
    decreases |p|
  {
    if p == [] {
      assert p + q == q;
    } else {
      assert (p + q)[0] == p[0];
      assert (p + q)[1..] == p[1..] + q;
      ResolveAppend(Step(at, p[0]), p[1..], q);
    }
  }

  lemma {:induction false} ResolveNormalPath(at: seq<string>, p: Path, names: seq<string>)
    requires |p| == |names| && forall i :: 0 <= i < |p| ==> p[i] == Normal(names[i])
    ensures ResolveFrom(at, p) == at + names
    decreases |p|
  {
    if p != [] {
      ResolveNormalPath(at + [names[0]], p[1..], names[1..]);
      assert at + [names[0]] + names[1..] == at + names;
    }
  }

  lemma ResolveNormals(at: seq<string>, names: seq<string>)
    ensures ResolveFrom(at, Normals(names)) == at + names
  {
    ResolveNormalPath(at, Normals(names), names);
  }

  /** The resolved location of a normal child is the parent's location plus
      the name. */
  lemma ResolveChild(cwd: seq<string>, p: Path, names: seq<string>)
    requires p != []
    ensures Resolve(cwd, Join(p, Normals(names))) == Resolve(cwd, p) + names
  {
    if names != [] {
      assert Normals(names)[0] == Normal(names[0]);
    }
    ResolveAppend(cwd, p, Normals(names));
    ResolveNormals(ResolveFrom(cwd, p), names);
  }

  // ---------------------------------------------------------------------
  // The containment test of the archive extractors

  /** `base.join(p).starts_with(base)` holds exactly when `p` is relative or
      is itself below `base`: the test is about the text of the path. */
  lemma JoinStartsWith(base: Path, p: Path)
    requires base != []
    ensures StartsWith(Join(base, p), base) <==> !IsAbsolute(p) || StartsWith(p, base)
  {
    if !IsAbsolute(p) {
      if p != [] && p[0] == CurDir {
        assert (base + p[1..])[..|base|] == base;
      } else {
        assert (base + p)[..|base|] == base;
      }
    }
  }

  /** A relative name made of normal components only lands below `base`
      once resolved. */
  lemma JoinNormalsInside(cwd: seq<string>, base: Path, names: seq<string>)
    requires base != []
    ensures var r := Resolve(cwd, Join(base, Normals(names)));
      |Resolve(cwd, base)| <= |r| && r[..|Resolve(cwd, base)|] == Resolve(cwd, base)
  {
    ResolveChild(cwd, base, names);
    var b := Resolve(cwd, base);
    assert (b + names)[..|b|] == b;
  }

  /** `..` passes the textual test but resolves outside `base`: the entry
      name `../x` is accepted by the test and names the sibling `x` of
      `base`, not something in it. */
  lemma DotDotPassesTheTest(cwd: seq<string>, base: Path)
    requires base != [] && Resolve(cwd, base) != []
    ensures var p := Join(base, FromText("../x"));
      && StartsWith(p, base)
      && var b := Resolve(cwd, base);
         Resolve(cwd, p) == b[..|b| - 1] + ["x"]
  {
    var q := FromText("../x");
    assert FirstPiece("../x") == 2;
    assert "../x"[..2] == "..";
    assert "../x"[3..] == "x";
    assert FirstPiece("x") == 1;
    assert "x"[..1] == "x";
    assert Pieces("x", false) == [Normal("x")];
    assert q == [ParentDir, Normal("x")];
    JoinStartsWith(base, q);
    var b := Resolve(cwd, base);
    ResolveAppend(cwd, base, q);
    assert ResolveFrom(b, q) == ResolveFrom(Step(b, ParentDir), [Normal("x")]);
    assert Resolve(cwd, Join(base, q)) == b[..|b| - 1] + ["x"];
  }

  /** An absolute entry name is refused unless it is already below
      `base`. */
  lemma AbsoluteFailsTheTest(base: Path)
    requires base != [] && base[0] != RootDir
    ensures !StartsWith(Join(base, FromText("/etc/passwd")), base)
  {
    JoinStartsWith(base, FromText("/etc/passwd"));
  }

  /** The stem and the extension, when there is one, put back together
      give the name. */
  lemma StemAndExtension(name: string)
    requires ExtensionOf(name).Some?
    ensures StemOf(name) + "." + ExtensionOf(name).value == name
  {
    var i := LastDot(name).value;
    assert name == name[..i] + [name[i]] + name[i + 1..];
  }

  /** A name without a `.` past its first character has no extension and
      is its own stem. */
  lemma NoDotNoExtension(name: string)
    requires forall i :: 0 < i < |name| ==> name[i] != '.'
    ensures ExtensionOf(name).None? && StemOf(name) == name
  {
  }
}
