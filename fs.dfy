/** The file system the program reads and changes, as a tree of directories
    and files, and the `std::fs` calls it makes, each as a function from the
    state before to the state after (or the error the call returns). Paths
    given to a call are resolved against the working directory by
    `Paths.Resolve`; there are no symbolic links, permissions or
    timestamps. */
module Fs {
  import opened Wrappers
  import opened Paths
  import Utf8

  type byte = Utf8.byte

  datatype Node = File(data: seq<byte>) | Dir(entries: map<string, Node>)

  /** The `std::io::ErrorKind`s the calls can fail with. */
  datatype IoError =
    | NotFound
    | NotADirectory
    | IsADirectory
    | AlreadyExists
    | DirectoryNotEmpty
    | InvalidInput
    | ResourceBusy

  /** The whole file system: the tree below `/` and the working directory. */
  datatype Fs = Fs(root: Node, cwd: seq<string>)

  /** The text of an `io::Error` on Linux. */
  function IoMessage(e: IoError): string {
    match e
    case NotFound => "No such file or directory (os error 2)"
    case NotADirectory => "Not a directory (os error 20)"
    case IsADirectory => "Is a directory (os error 21)"
    case AlreadyExists => "File exists (os error 17)"
    case DirectoryNotEmpty => "Directory not empty (os error 39)"
    case InvalidInput => "Invalid argument (os error 22)"
    case ResourceBusy => "Device or resource busy (os error 16)"
  }

  // ---------------------------------------------------------------------
  // The tree

  /** The node at the absolute location `p`. */
  function Get(t: Node, p: seq<string>): Option<Node>
    decreases |p|
  {
    if p == [] then Some(t)
    else if t.Dir? && p[0] in t.entries then Get(t.entries[p[0]], p[1..])
    else None
  }

  predicate IsDirAt(t: Node, p: seq<string>) {
    Get(t, p).Some? && Get(t, p).value.Dir?
  }

  predicate IsFileAt(t: Node, p: seq<string>) {
    Get(t, p).Some? && Get(t, p).value.File?
  }

  predicate IsPrefix(a: seq<string>, b: seq<string>) {
    |a| <= |b| && b[..|a|] == a
  }

  /** `a` and `b` lie on one line from the root: neither is beside the other. */
  predicate Related(a: seq<string>, b: seq<string>) {
    IsPrefix(a, b) || IsPrefix(b, a)
  }

  function Init(p: seq<string>): seq<string>
    requires p != []
  {
    p[..|p| - 1]
  }

  /** Where a node can be put: at the root, or below an existing directory. */
  predicate CanPut(t: Node, p: seq<string>) {
    p == [] || IsDirAt(t, Init(p))
  }

  /** The tree with the node at `p` replaced by (or set to) `n`. */
  function Put(t: Node, p: seq<string>, n: Node): Node
    requires CanPut(t, p)
    decreases |p|
  {
    if p == [] then n
    else if |p| == 1 then Dir(t.entries[p[0] := n])
    else
      assert Init(p)[0] == p[0] && Init(p)[1..] == Init(p[1..]);
      Dir(t.entries[p[0] := Put(t.entries[p[0]], p[1..], n)])
  }

  /** The tree without the node at `p`. */
  function Remove(t: Node, p: seq<string>): Node
    requires p != [] && Get(t, p).Some?
    decreases |p|
  {
    if |p| == 1 then Dir(t.entries - {p[0]})
    else Dir(t.entries[p[0] := Remove(t.entries[p[0]], p[1..])])
  }

  /** Looking up in two steps. */
  lemma {:induction false} GetAppend(t: Node, a: seq<string>, b: seq<string>)
    ensures Get(t, a + b) == if Get(t, a).Some? then Get(Get(t, a).value, b) else None
    decreases |a|
  {
    if a == [] {
      assert a + b == b;
    } else {
      assert (a + b)[0] == a[0];
      assert (a + b)[1..] == a[1..] + b;
      if t.Dir? && a[0] in t.entries {
        GetAppend(t.entries[a[0]], a[1..], b);
      }
    }
  }

  /** Whatever exists below the root lies in a directory. */
  lemma ParentIsDir(t: Node, a: seq<string>)
    requires a != [] && Get(t, a).Some?
    ensures IsDirAt(t, Init(a))
  {
    assert Init(a) + [a[|a| - 1]] == a;
    GetAppend(t, Init(a), [a[|a| - 1]]);
  }

  /** What `Put` changes: the subtree at `p` is `n`, its ancestors gain the
      last step towards `p` and nothing else moves. */
  lemma {:induction false} GetPut(t: Node, p: seq<string>, n: Node, q: seq<string>)
    requires CanPut(t, p)
    ensures IsPrefix(p, q) ==> Get(Put(t, p, n), q) == Get(n, q[|p|..])
    ensures !Related(p, q) ==> Get(Put(t, p, n), q) == Get(t, q)
    ensures IsPrefix(q, p) && q != p ==>
      && IsDirAt(t, q) && IsDirAt(Put(t, p, n), q)
      && Get(Put(t, p, n), q).value.entries.Keys == Get(t, q).value.entries.Keys + {p[|q|]}
    decreases |p|
  {
    if p != [] && q != [] {
      if |p| == 1 {
        if q[0] != p[0] {
          assert !Related(p, q);
        } else {
          assert q[|p|..] == q[1..];
        }
      } else {
        assert Init(p)[0] == p[0] && Init(p)[1..] == Init(p[1..]);
        if q[0] == p[0] {
          GetPut(t.entries[p[0]], p[1..], n, q[1..]);
          assert IsPrefix(p, q) <==> IsPrefix(p[1..], q[1..]);
          assert IsPrefix(q, p) <==> IsPrefix(q[1..], p[1..]);
          if IsPrefix(p, q) {
            assert q[|p|..] == q[1..][|p[1..]|..];
          }
        } else {
          assert !Related(p, q);
        }
      }
    } else if p != [] && q == [] {
      assert IsPrefix(q, p);
      if |p| > 1 {
        assert Init(p)[0] == p[0];
      }
    }
  }

  /** What `Remove` changes: nothing is left at or below `p`, the parent of
      `p` loses one entry and nothing else moves. */
  lemma {:induction false} GetRemove(t: Node, p: seq<string>, q: seq<string>)
    requires p != [] && Get(t, p).Some?
    ensures IsPrefix(p, q) ==> Get(Remove(t, p), q).None?
    ensures !Related(p, q) ==> Get(Remove(t, p), q) == Get(t, q)
    ensures IsPrefix(q, p) && q != p ==>
      && IsDirAt(t, q) && IsDirAt(Remove(t, p), q)
      && Get(Remove(t, p), q).value.entries.Keys ==
         if |q| + 1 == |p| then Get(t, q).value.entries.Keys - {p[|q|]}
         else Get(t, q).value.entries.Keys
    decreases |p|
  {
    if q != [] {
      if |p| == 1 {
        if q[0] != p[0] {
          assert !Related(p, q);
        }
      } else if q[0] == p[0] {
        GetRemove(t.entries[p[0]], p[1..], q[1..]);
        assert IsPrefix(p, q) <==> IsPrefix(p[1..], q[1..]);
        assert IsPrefix(q, p) <==> IsPrefix(q[1..], p[1..]);
      } else {
        assert !Related(p, q);
      }
    } else {
      assert IsPrefix(q, p);
    }
  }

  /** Everything below an existing directory is reached through it. */
  lemma {:induction false} PutAppend(t: Node, a: seq<string>, b: seq<string>, n: Node)
    requires Get(t, a).Some? && CanPut(Get(t, a).value, b) && CanPut(t, a)
    ensures CanPut(t, a + b)
    ensures Put(t, a + b, n) == Put(t, a, Put(Get(t, a).value, b, n))
    decreases |a|
  {
    if a == [] {
      assert a + b == b;
    } else {
      var c := t.entries[a[0]];
      assert (a + b)[0] == a[0];
      assert (a + b)[1..] == a[1..] + b;
      if b != [] {
        assert Init(a + b) == a + Init(b);
        GetAppend(t, a, Init(b));
      } else {
        assert a + b == a;
      }
      if |a| > 1 {
        assert Init(a)[0] == a[0] && Init(a)[1..] == Init(a[1..]);
        PutAppend(c, a[1..], b, n);
      }
    }
  }

  lemma {:induction false} RemoveAppend(t: Node, a: seq<string>, b: seq<string>)
    requires b != [] && Get(t, a + b).Some?
    ensures Get(t, a).Some? && CanPut(t, a) && Get(Get(t, a).value, b).Some?
    ensures Remove(t, a + b) == Put(t, a, Remove(Get(t, a).value, b))
    decreases |a|
  {
    GetAppend(t, a, b);
    if a == [] {
      assert a + b == b;
    } else {
      assert (a + b)[0] == a[0];
      assert (a + b)[1..] == a[1..] + b;
      GetAppend(t, [a[0]], a[1..]);
      assert [a[0]] + a[1..] == a;
      if |a| > 1 {
        assert Init(a)[0] == a[0] && Init(a)[1..] == Init(a[1..]);
        RemoveAppend(t.entries[a[0]], a[1..], b);
      }
    }
  }

  // ---------------------------------------------------------------------
  // The calls

  /** The absolute location a path names. */
  function Abs(fs: Fs, p: Path): seq<string> {
    Resolve(fs.cwd, p)
  }

  /** `Path::exists` */
  predicate Exists(fs: Fs, p: Path) {
    Get(fs.root, Abs(fs, p)).Some?
  }

  /** `Path::is_dir` */
  predicate IsDir(fs: Fs, p: Path) {
    IsDirAt(fs.root, Abs(fs, p))
  }

  /** `Path::is_file` */
  predicate IsFile(fs: Fs, p: Path) {
    IsFileAt(fs.root, Abs(fs, p))
  }

  /** The error a lookup of a location that is not there reports: a file on
      the way is `NotADirectory`, a missing step `NotFound`. */
  function MissingKind(t: Node, p: seq<string>): IoError
    decreases |p|
  {
    if p == [] then NotFound
    else if t.File? then NotADirectory
    else if p[0] !in t.entries then NotFound
    else MissingKind(t.entries[p[0]], p[1..])
  }

  /** The directories on the way to `a` and `a` itself created where they
      are missing; a file in the way is an error. */
  function MkdirAll(t: Node, a: seq<string>): (r: Result<Node, IoError>)
    ensures r.Ok? ==> IsDirAt(r.value, a)
    decreases |a|
  {
    if t.File? then Err(if a == [] then AlreadyExists else NotADirectory)
    else if a == [] then Ok(t)
    else
      var child := if a[0] in t.entries then t.entries[a[0]] else Dir(map[]);
      match MkdirAll(child, a[1..])
      case Err(e) => Err(e)
      case Ok(c) => Ok(Dir(t.entries[a[0] := c]))
  }

  /** `fs::create_dir_all(p)` */
  function CreateDirAll(fs: Fs, p: Path): (r: Result<Fs, IoError>)
    ensures r.Ok? ==> r.value.cwd == fs.cwd && IsDir(r.value, p)
  {
    match MkdirAll(fs.root, Abs(fs, p))
    case Err(e) => Err(e)
    case Ok(t) => Ok(fs.(root := t))
  }

  /** `fs::File::create(p)` followed by writing `data` into it: the file is
      created or truncated; its directory must exist. */
  function CreateFile(fs: Fs, p: Path, data: seq<byte>): (r: Result<Fs, IoError>)
    ensures r.Ok? ==> r.value.cwd == fs.cwd
  {
    var a := Abs(fs, p);
    if a == [] || IsDirAt(fs.root, a) then Err(IsADirectory)
    else if !IsDirAt(fs.root, Init(a)) then Err(MissingKind(fs.root, Init(a)))
    else Ok(fs.(root := Put(fs.root, a, File(data))))
  }

  /** `fs::copy(from, to)`: the source must be a file. */
  function Copy(fs: Fs, from: Path, to: Path): (r: Result<Fs, IoError>)
    ensures r.Ok? ==> r.value.cwd == fs.cwd
  {
    match Get(fs.root, Abs(fs, from))
    case None => Err(MissingKind(fs.root, Abs(fs, from)))
    case Some(Dir(_)) => Err(InvalidInput)
    case Some(File(data)) => CreateFile(fs, to, data)
  }

  /** `fs::rename(from, to)` with the rules of rename(2): a file may replace
      a file, a directory an empty directory; a directory cannot move into
      itself (`InvalidInput`) nor onto one of its ancestors, which is never
      empty (`DirectoryNotEmpty`). */
  function Rename(fs: Fs, from: Path, to: Path): (r: Result<Fs, IoError>)
    ensures r.Ok? ==> r.value.cwd == fs.cwd
  {
    var a := Abs(fs, from);
    var b := Abs(fs, to);
    if Get(fs.root, a).None? then Err(MissingKind(fs.root, a))
    else if a == [] || b == [] then Err(ResourceBusy)
    else if !IsDirAt(fs.root, Init(b)) then Err(MissingKind(fs.root, Init(b)))
    else if a == b then Ok(fs)
    else if IsPrefix(a, b) then Err(InvalidInput)
    else if IsPrefix(b, a) then Err(DirectoryNotEmpty)
    else
      var src := Get(fs.root, a).value;
      match Get(fs.root, b)
      case Some(Dir(e)) =>
        if src.File? then Err(IsADirectory)
        else if e != map[] then Err(DirectoryNotEmpty)
        else Ok(fs.(root := Move(fs.root, a, b)))
      case Some(File(_)) =>
        if src.Dir? then Err(NotADirectory) else Ok(fs.(root := Move(fs.root, a, b)))
      case None => Ok(fs.(root := Move(fs.root, a, b)))
  }

  /** The node at `a` taken away and put at `b`. */
  function Move(t: Node, a: seq<string>, b: seq<string>): Node
    requires a != [] && b != [] && Get(t, a).Some? && IsDirAt(t, Init(b))
    requires !IsPrefix(a, b)
  {
    GetRemove(t, a, Init(b));
    assert !IsPrefix(a, Init(b));
    Put(Remove(t, a), b, Get(t, a).value)
  }

  /** `fs::remove_dir(p)`: only an empty directory. */
  function RemoveDir(fs: Fs, p: Path): (r: Result<Fs, IoError>)
    ensures r.Ok? ==> r.value.cwd == fs.cwd
  {
    var a := Abs(fs, p);
    match Get(fs.root, a)
    case None => Err(MissingKind(fs.root, a))
    case Some(File(_)) => Err(NotADirectory)
    case Some(Dir(e)) =>
      if a == [] then Err(ResourceBusy)
      else if e != map[] then Err(DirectoryNotEmpty)
      else Ok(fs.(root := Remove(fs.root, a)))
  }

  /** `fs::remove_file(p)` */
  function RemoveFile(fs: Fs, p: Path): (r: Result<Fs, IoError>)
    ensures r.Ok? ==> r.value.cwd == fs.cwd
  {
    var a := Abs(fs, p);
    match Get(fs.root, a)
    case None => Err(MissingKind(fs.root, a))
    case Some(Dir(_)) => Err(IsADirectory)
    case Some(File(_)) => if a == [] then Err(ResourceBusy) else Ok(fs.(root := Remove(fs.root, a)))
  }

  /** `fs::remove_dir_all(p)`: a directory and everything in it. */
  function RemoveDirAll(fs: Fs, p: Path): (r: Result<Fs, IoError>)
    ensures r.Ok? ==> r.value.cwd == fs.cwd
  {
    var a := Abs(fs, p);
    match Get(fs.root, a)
    case None => Err(MissingKind(fs.root, a))
    case Some(File(_)) => Err(NotADirectory)
    case Some(Dir(_)) => if a == [] then Err(ResourceBusy) else Ok(fs.(root := Remove(fs.root, a)))
  }

  /** The names `fs::read_dir(p)` lists. */
  function ReadDir(fs: Fs, p: Path): Result<set<string>, IoError> {
    match Get(fs.root, Abs(fs, p))
    case None => Err(MissingKind(fs.root, Abs(fs, p)))
    case Some(File(_)) => Err(NotADirectory)
    case Some(Dir(e)) => Ok(e.Keys)
  }

  predicate Distinct<T(==)>(s: seq<T>) {
    forall i, j :: 0 <= i < j < |s| ==> s[i] != s[j]
  }

  function Elements<T>(s: seq<T>): set<T> {
    set i | 0 <= i < |s| :: s[i]
  }

  lemma ElementsAppend<T>(s: seq<T>, x: T)
    ensures Elements(s + [x]) == Elements(s) + {x}
  {
    var t := s + [x];
    assert t[|s|] == x;
    forall y | y in Elements(s) ensures y in Elements(t) {
      var i :| 0 <= i < |s| && s[i] == y;
      assert t[i] == y;
    }
  }

  /** `fs::read_dir(p)` as the program iterates it: every name once, in an
      order the file system chooses. */
  method ListDir(fs: Fs, p: Path) returns (r: Result<seq<string>, IoError>)
    ensures r.Err? <==> ReadDir(fs, p).Err?
    ensures r.Err? ==> r.error == ReadDir(fs, p).error
    ensures r.Ok? ==> Distinct(r.value) && Elements(r.value) == ReadDir(fs, p).value
  {
    match ReadDir(fs, p)
    case Err(e) =>
      return Err(e);
    case Ok(names) =>
      var left := names;
      var out: seq<string> := [];
      while left != {}
        invariant Distinct(out)
        invariant Elements(out) !! left
        invariant Elements(out) + left == names
        decreases |left|
      {
        var n :| n in left;
        ElementsAppend(out, n);
        assert forall i :: 0 <= i < |out| ==> out[i] in Elements(out);
        out := out + [n];
        left := left - {n};
      }
      return Ok(out);
  }

  // ---------------------------------------------------------------------
  // What the calls change

  lemma {:induction false} MkdirAllFrame(t: Node, a: seq<string>, q: seq<string>)
    requires MkdirAll(t, a).Ok?
    ensures !IsPrefix(q, a) ==> Get(MkdirAll(t, a).value, q) == Get(t, q)
    ensures IsPrefix(q, a) ==>
      && IsDirAt(MkdirAll(t, a).value, q)
      && (IsDirAt(t, q) ==> Get(t, q).value.entries.Keys <= Get(MkdirAll(t, a).value, q).value.entries.Keys)
    decreases |a|
  {
    if a != [] && q != [] {
      var child := if a[0] in t.entries then t.entries[a[0]] else Dir(map[]);
      if q[0] == a[0] {
        MkdirAllFrame(child, a[1..], q[1..]);
        assert IsPrefix(q, a) <==> IsPrefix(q[1..], a[1..]);
      }
    } else if a == [] && q != [] {
      assert !IsPrefix(q, a);
    }
  }

  /** `create_dir_all` fails exactly when a file is in the way. */
  lemma {:induction false} MkdirAllFails(t: Node, a: seq<string>)
    ensures MkdirAll(t, a).Err? <==> exists i :: 0 <= i <= |a| && IsFileAt(t, a[..i])
    decreases |a|
  {
    if t.File? {
      assert IsFileAt(t, a[..0]);
    } else if a != [] {
      var child := if a[0] in t.entries then t.entries[a[0]] else Dir(map[]);
      MkdirAllFails(child, a[1..]);
      if MkdirAll(child, a[1..]).Err? {
        var i :| 0 <= i <= |a[1..]| && IsFileAt(child, a[1..][..i]);
        assert a[..i + 1] == [a[0]] + a[1..][..i];
        assert a[..i + 1][1..] == a[1..][..i];
        if a[0] !in t.entries {
          assert false;
        }
        assert IsFileAt(t, a[..i + 1]);
      } else {
        forall i | 0 <= i <= |a| ensures !IsFileAt(t, a[..i]) {
          if i > 0 {
            assert a[..i][1..] == a[1..][..i - 1];
            if a[0] in t.entries {
              assert Get(t, a[..i]) == Get(child, a[1..][..i - 1]);
            }
          }
        }
      }
    }
  }

  /** After `CreateFile` the file holds `data`; only its directory's
      listing changes besides. */
  lemma CreateFileEffect(fs: Fs, p: Path, data: seq<byte>, q: seq<string>)
    requires CreateFile(fs, p, data).Ok?
    ensures var a := Abs(fs, p); var t := CreateFile(fs, p, data).value.root;
      && Get(t, a) == Some(File(data))
      && (!Related(a, q) ==> Get(t, q) == Get(fs.root, q))
      && (IsPrefix(q, a) && q != a ==>
           && IsDirAt(t, q) && IsDirAt(fs.root, q)
           && Get(t, q).value.entries.Keys == Get(fs.root, q).value.entries.Keys + {a[|q|]})
  {
    var a := Abs(fs, p);
    GetPut(fs.root, a, File(data), q);
    GetPut(fs.root, a, File(data), a);
    assert a[|a|..] == [];
  }

  /** After a successful move of a node from `a` to a different `b`, the
      subtree once at `a` is at `b`, nothing is left at `a`, and nothing
      beside both has changed. */
  lemma MoveEffect(t: Node, a: seq<string>, b: seq<string>, q: seq<string>)
    requires a != [] && b != [] && Get(t, a).Some? && IsDirAt(t, Init(b))
    requires !IsPrefix(a, b) && !IsPrefix(b, a)
    ensures IsPrefix(b, q) ==> Get(Move(t, a, b), q) == Get(Get(t, a).value, q[|b|..])
    ensures IsPrefix(a, q) ==> Get(Move(t, a, b), q).None?
    ensures !Related(a, q) && !Related(b, q) ==> Get(Move(t, a, b), q) == Get(t, q)
  {
    GetRemove(t, a, Init(b));
    var t1 := Remove(t, a);
    GetPut(t1, b, Get(t, a).value, q);
    GetRemove(t, a, q);
  }

  /** Whatever lies above an existing node is a directory. */
  lemma AncestorIsDir(t: Node, a: seq<string>, q: seq<string>)
    requires Get(t, q).Some? && IsPrefix(a, q) && a != q
    ensures IsDirAt(t, a)
  {
    assert a + q[|a|..] == q;
    GetAppend(t, a, q[|a|..]);
  }

  /** Creating a file keeps every directory there was. */
  lemma CreateFileKeepsDirs(fs: Fs, p: Path, data: seq<byte>, q: seq<string>)
    requires CreateFile(fs, p, data).Ok? && IsDirAt(fs.root, q)
    ensures IsDirAt(CreateFile(fs, p, data).value.root, q)
  {
    var a := Abs(fs, p);
    CreateFileEffect(fs, p, data, q);
    if IsPrefix(a, q) && a != q {
      AncestorIsDir(fs.root, a, q);
    }
  }

  /** `create_dir_all` keeps every directory there was and changes nothing
      off the line to its path. */
  lemma CreateDirAllKeepsDirs(fs: Fs, p: Path, q: seq<string>)
    requires CreateDirAll(fs, p).Ok?
    ensures IsDirAt(fs.root, q) ==> IsDirAt(CreateDirAll(fs, p).value.root, q)
    ensures !IsPrefix(q, Abs(fs, p)) ==> Get(CreateDirAll(fs, p).value.root, q) == Get(fs.root, q)
  {
    MkdirAllFrame(fs.root, Abs(fs, p), q);
  }

  // ---------------------------------------------------------------------
  // Changes inside one directory

  /** Putting twice at one place keeps the second node only. */
  lemma {:induction false} PutPut(t: Node, a: seq<string>, x: Node, y: Node)
    requires CanPut(t, a)
    ensures CanPut(Put(t, a, x), a)
    ensures Put(Put(t, a, x), a, y) == Put(t, a, y)
    decreases |a|
  {
    if a != [] {
      GetPut(t, a, x, Init(a));
      if |a| > 1 {
        assert Init(a)[0] == a[0] && Init(a)[1..] == Init(a[1..]);
        PutPut(t.entries[a[0]], a[1..], x, y);
      }
    }
  }

  /** Putting back what is there changes nothing. */
  lemma {:induction false} PutGet(t: Node, a: seq<string>)
    requires CanPut(t, a) && Get(t, a).Some?
    ensures Put(t, a, Get(t, a).value) == t
    decreases |a|
  {
    if |a| == 1 {
      assert t.entries[a[0] := t.entries[a[0]]] == t.entries;
    } else if |a| > 1 {
      assert Init(a)[0] == a[0] && Init(a)[1..] == Init(a[1..]);
      PutGet(t.entries[a[0]], a[1..]);
      assert t.entries[a[0] := t.entries[a[0]]] == t.entries;
    }
  }

  /** The location of a child named `n` of `p`. */
  lemma AbsChild(fs: Fs, p: Path, n: string)
    ensures Abs(fs, Join(p, [Normal(n)])) == Abs(fs, p) + [n]
  {
    assert Normals([n]) == [Normal(n)];
    if p != [] {
      ResolveChild(fs.cwd, p, [n]);
    } else {
      assert ResolveFrom(fs.cwd, [Normal(n)]) == ResolveFrom(fs.cwd + [n], []);
    }
  }

  /** The directory `t` with `entries` in place of the one at `a`. */
  function WithDir(t: Node, a: seq<string>, entries: map<string, Node>): Node
    requires CanPut(t, a)
  {
    Put(t, a, Dir(entries))
  }

  /** `fs::rename(p/s/c, p/c)`: moving a grandchild up beside its parent
      fails when it has the parent's name, whose directory is not empty;
      otherwise it changes the listing of `p` and of `p/s` only. */
  lemma RenameUp(fs: Fs, p: Path, s: string, c: string)
    requires IsDir(fs, p) && CanPut(fs.root, Abs(fs, p))
    requires var e := Get(fs.root, Abs(fs, p)).value.entries;
      s in e && e[s].Dir? && c in e[s].entries && (c == s || c !in e)
    ensures var a := Abs(fs, p); var e := Get(fs.root, a).value.entries;
      var r := Rename(fs, Join(Join(p, [Normal(s)]), [Normal(c)]), Join(p, [Normal(c)]));
      && (c == s ==> r == Err(DirectoryNotEmpty))
      && (c != s ==> r == Ok(fs.(root := WithDir(fs.root, a, e[s := Dir(e[s].entries - {c})][c := e[s].entries[c]]))))
  {
    var a := Abs(fs, p);
    AbsChild(fs, p, s);
    AbsChild(fs, Join(p, [Normal(s)]), c);
    AbsChild(fs, p, c);
    assert a + [s] + [c] == a + [s, c];
    GetGrandchild(fs.root, a, s, c);
    if c != s {
      GetAppend(fs.root, a, [c]);
      MoveUpTree(fs.root, a, s, c);
    } else {
      assert Init(a + [c]) == a;
      assert IsPrefix(a + [c], a + [s, c]);
    }
  }

  /** A grandchild is reached through its parent. */
  lemma GetGrandchild(t: Node, a: seq<string>, s: string, c: string)
    requires IsDirAt(t, a)
    requires var e := Get(t, a).value.entries; s in e && e[s].Dir? && c in e[s].entries
    ensures Get(t, a + [s, c]) == Some(Get(t, a).value.entries[s].entries[c])
  {
    var e := Get(t, a).value.entries;
    assert [s, c][1..] == [c] && [c][1..] == [];
    assert Get(Get(t, a).value, [s, c]) == Get(e[s], [c]);
    assert Get(e[s], [c]) == Get(e[s].entries[c], []);
    GetAppend(t, a, [s, c]);
  }

  /** The tree after moving `a/s/c` up to `a/c`. */
  lemma MoveUpTree(t: Node, a: seq<string>, s: string, c: string)
    requires IsDirAt(t, a) && CanPut(t, a)
    requires var e := Get(t, a).value.entries; s in e && e[s].Dir? && c in e[s].entries && c != s
    ensures Init(a + [c]) == a && Get(t, a + [s, c]).Some? && !IsPrefix(a + [s, c], a + [c])
    ensures var e := Get(t, a).value.entries;
      Move(t, a + [s, c], a + [c]) == WithDir(t, a, e[s := Dir(e[s].entries - {c})][c := e[s].entries[c]])
  {
    var e := Get(t, a).value.entries;
    var from := a + [s, c];
    var to := a + [c];
    var n := e[s].entries[c];
    var x := Dir(e[s := Dir(e[s].entries - {c})]);
    assert Init(to) == a;
    assert Get(t, from) == Some(n) by { GetGrandchild(t, a, s, c); }
    assert Remove(t, from) == Put(t, a, x) by { RemoveGrandchild(t, a, s, c); }
    assert Put(Put(t, a, x), to, n) == Put(t, a, Dir(x.entries[c := n])) by { PutChild(t, a, x, c, n); }
  }

  /** Taking away `a/s/c` changes the directory `a/s` only. */
  lemma RemoveGrandchild(t: Node, a: seq<string>, s: string, c: string)
    requires IsDirAt(t, a) && CanPut(t, a)
    requires var e := Get(t, a).value.entries; s in e && e[s].Dir? && c in e[s].entries
    ensures Get(t, a + [s, c]).Some?
    ensures var e := Get(t, a).value.entries;
      Remove(t, a + [s, c]) == Put(t, a, Dir(e[s := Dir(e[s].entries - {c})]))
  {
    var e := Get(t, a).value.entries;
    GetGrandchild(t, a, s, c);
    RemoveAppend(t, a, [s, c]);
    assert [s, c][1..] == [c];
  }

  /** Putting a child into a directory just put at `a`. */
  lemma PutChild(t: Node, a: seq<string>, x: Node, c: string, n: Node)
    requires CanPut(t, a) && x.Dir?
    ensures CanPut(Put(t, a, x), a + [c])
    ensures Put(Put(t, a, x), a + [c], n) == Put(t, a, Dir(x.entries[c := n]))
  {
    var t1 := Put(t, a, x);
    GetPut(t, a, x, a);
    assert a[|a|..] == [];
    PutPut(t, a, x, Put(x, [c], n));
    PutAppend(t1, a, [c], n);
  }

  /** `fs::rename` of a file to another name in its directory: onto a
      directory it fails, otherwise the file moves. */
  lemma RenameFile(fs: Fs, from: Path, to: Path)
    requires var a := Abs(fs, from); var b := Abs(fs, to);
      a != [] && b != [] && Init(a) == Init(b) && a != b && IsFileAt(fs.root, a)
    ensures var a := Abs(fs, from); var b := Abs(fs, to);
      && IsDirAt(fs.root, Init(b)) && !IsPrefix(a, b) && !IsPrefix(b, a)
      && Rename(fs, from, to) == if IsDirAt(fs.root, b) then Err(IsADirectory) else Ok(fs.(root := Move(fs.root, a, b)))
  {
    var a := Abs(fs, from);
    var b := Abs(fs, to);
    ParentIsDir(fs.root, a);
    assert |a| == |b|;
  }

  /** Moving a node to another name in its directory: the node is at the
      new name, nothing is at the old one, and nothing beside both moves. */
  lemma MoveSibling(t: Node, a: seq<string>, b: seq<string>, q: seq<string>)
    requires a != [] && b != [] && Init(a) == Init(b) && a != b && Get(t, a).Some? && IsDirAt(t, Init(b))
    ensures !IsPrefix(a, b) && !IsPrefix(b, a)
    ensures Get(Move(t, a, b), b) == Get(t, a) && Get(Move(t, a, b), a).None?
    ensures !Related(a, q) && !Related(b, q) ==> Get(Move(t, a, b), q) == Get(t, q)
  {
    assert |a| == |b|;
    MoveEffect(t, a, b, q);
    MoveEffect(t, a, b, a);
    MoveEffect(t, a, b, b);
    assert b[|b|..] == [];
  }

  /** `fs::rename` of a node onto its own parent directory fails: the
      directory is not empty. */
  lemma RenameOntoParent(fs: Fs, from: Path, to: Path)
    requires var a := Abs(fs, from); var b := Abs(fs, to);
      a != [] && b != [] && Init(a) == b && Get(fs.root, a).Some?
    ensures Rename(fs, from, to) == Err(DirectoryNotEmpty)
  {
    var a := Abs(fs, from);
    var b := Abs(fs, to);
    ParentIsDir(fs.root, a);
    ParentIsDir(fs.root, b);
    assert |a| == |b| + 1 && IsPrefix(b, a);
  }

  /** `fs::rename(p/s, p/n)` to a name not yet there: the listing of `p`
      changes only. */
  lemma RenameAside(fs: Fs, p: Path, s: string, n: string)
    requires IsDir(fs, p) && CanPut(fs.root, Abs(fs, p))
    requires var e := Get(fs.root, Abs(fs, p)).value.entries; s in e && n !in e
    ensures var a := Abs(fs, p); var e := Get(fs.root, a).value.entries;
      Rename(fs, Join(p, [Normal(s)]), Join(p, [Normal(n)])) == Ok(fs.(root := WithDir(fs.root, a, (e - {s})[n := e[s]])))
  {
    var a := Abs(fs, p);
    var t := fs.root;
    var e := Get(t, a).value.entries;
    AbsChild(fs, p, s);
    AbsChild(fs, p, n);
    var from := a + [s];
    var to := a + [n];
    assert Init(to) == a && Init(from) == a;
    GetAppend(t, a, [s]);
    GetAppend(t, a, [n]);
    assert from[|a|] == s && to[|a|] == n;
    RemoveAppend(t, a, [s]);
    var x := Remove(Get(t, a).value, [s]);
    var t1 := Remove(t, from);
    GetPut(t, a, x, a);
    assert a[|a|..] == [];
    PutPut(t, a, x, Put(x, [n], e[s]));
    PutAppend(t1, a, [n], e[s]);
  }

  /** `fs::remove_dir(p/s)` of an empty directory: the listing of `p`
      loses `s`. */
  lemma RemoveEmptyChild(fs: Fs, p: Path, s: string)
    requires IsDir(fs, p) && CanPut(fs.root, Abs(fs, p))
    requires var e := Get(fs.root, Abs(fs, p)).value.entries; s in e && e[s] == Dir(map[])
    ensures var a := Abs(fs, p); var e := Get(fs.root, a).value.entries;
      RemoveDir(fs, Join(p, [Normal(s)])) == Ok(fs.(root := WithDir(fs.root, a, e - {s})))
  {
    var a := Abs(fs, p);
    AbsChild(fs, p, s);
    GetAppend(fs.root, a, [s]);
    RemoveAppend(fs.root, a, [s]);
  }

  /** `fs::remove_dir_all(p/s)` of a subdirectory: the listing of `p` loses
      `s` with everything below it. */
  lemma RemoveChildTree(fs: Fs, p: Path, s: string)
    requires IsDir(fs, p) && CanPut(fs.root, Abs(fs, p))
    requires var e := Get(fs.root, Abs(fs, p)).value.entries; s in e && e[s].Dir?
    ensures var a := Abs(fs, p); var e := Get(fs.root, a).value.entries;
      RemoveDirAll(fs, Join(p, [Normal(s)])) == Ok(fs.(root := WithDir(fs.root, a, e - {s})))
  {
    var a := Abs(fs, p);
    AbsChild(fs, p, s);
    GetAppend(fs.root, a, [s]);
    RemoveAppend(fs.root, a, [s]);
  }

  /** `fs::remove_file(p/n)` succeeds exactly when `p` lists a file `n`,
      which it then loses. */
  lemma RemoveChildFile(fs: Fs, p: Path, n: string)
    requires IsDir(fs, p) && CanPut(fs.root, Abs(fs, p))
    ensures var a := Abs(fs, p); var e := Get(fs.root, a).value.entries;
      var r := RemoveFile(fs, Join(p, [Normal(n)]));
      && (r.Ok? <==> n in e && e[n].File?)
      && (r.Ok? ==> r.value == fs.(root := WithDir(fs.root, a, e - {n})))
  {
    var a := Abs(fs, p);
    AbsChild(fs, p, n);
    GetAppend(fs.root, a, [n]);
    if Get(fs.root, a + [n]).Some? {
      RemoveAppend(fs.root, a, [n]);
    }
  }

  /** What `fs::copy` of a file onto a free location changes: the new file
      holds the source's bytes, every existing file and directory stays,
      and nothing off the way to the new file is touched. */
  lemma CopyOntoFree(fs: Fs, from: Path, to: Path, q: seq<string>)
    requires IsFile(fs, from) && !Exists(fs, to) && Copy(fs, from, to).Ok?
    ensures var t := Copy(fs, from, to).value.root; var b := Abs(fs, to);
      && Get(t, b) == Get(fs.root, Abs(fs, from))
      && (IsFileAt(fs.root, q) ==> Get(t, q) == Get(fs.root, q))
      && (IsDirAt(fs.root, q) ==> IsDirAt(t, q))
      && (Get(t, q) != Get(fs.root, q) ==> IsPrefix(q, b))
  {
    var b := Abs(fs, to);
    var data := Get(fs.root, Abs(fs, from)).value.data;
    CreateFileEffect(fs, to, data, q);
    GetPut(fs.root, b, File(data), q);
    if IsPrefix(b, q) && b != q {
      assert b + q[|b|..] == q;
      GetAppend(fs.root, b, q[|b|..]);
      assert q[|b|..] != [];
    }
  }
}
