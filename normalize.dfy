/** Tidying an unpacked archive: lifting the contents of a lone
    subdirectory into its parent until the directory holds something else,
    listing the files of a tree, and copying the chart files of a diff
    archive into the main directory without overwriting anything. */
module Normalize {
  import opened Wrappers
  import opened Text
  import opened Paths
  import opened Fs

  /** `p.join(n)` for an entry name `n` that `read_dir` returned. */
  function Child(p: Path, n: string): Path {
    Join(p, [Normal(n)])
  }

  /** The tree `t` with `n` at `a` and everything else as it was. */
  predicate Replaced(t: Node, t': Node, a: seq<string>, n: Node) {
    CanPut(t, a) && t' == Put(t, a, n)
  }

  // ---------------------------------------------------------------------
  // Flattening, on the tree

  /** `n` holds exactly one entry, the directory `s`. */
  predicate OnlySubdir(n: Node, s: string) {
    n.Dir? && n.entries.Keys == {s} && n.entries[s].Dir?
  }

  lemma OnlySubdirUnique(n: Node, s: string, s': string)
    requires OnlySubdir(n, s) && OnlySubdir(n, s')
    ensures s == s'
  {
    assert s' in {s};
  }

  /** What flattening is for: the first directory down the chain of lone
      subdirectories that holds something else. */
  ghost function Flattened(n: Node): (r: Node)
    ensures forall s :: !OnlySubdir(r, s)
    ensures n.Dir? ==> r.Dir?
    decreases n
  {
    if exists s :: OnlySubdir(n, s) then
      var s :| OnlySubdir(n, s);
      Flattened(n.entries[s])
    else n
  }

  /** Somewhere down the chain a lone subdirectory holds an entry with its
      own name. */
  ghost predicate Collides(n: Node)
    decreases n
  {
    if exists s :: OnlySubdir(n, s) then
      var s :| OnlySubdir(n, s);
      s in n.entries[s].entries || Collides(n.entries[s])
    else false
  }

  lemma FlattenedStep(n: Node, s: string)
    requires OnlySubdir(n, s)
    ensures Flattened(n) == Flattened(n.entries[s])
    ensures Collides(n) <==> s in n.entries[s].entries || Collides(n.entries[s])
  {
    var s' :| OnlySubdir(n, s') && Flattened(n) == Flattened(n.entries[s']);
    OnlySubdirUnique(n, s, s');
  }

  lemma FlattenedStop(n: Node)
    requires forall s :: !OnlySubdir(n, s)
    ensures Flattened(n) == n && !Collides(n)
  {
  }

  /** Flattening twice is flattening once. */
  lemma FlattenedIdempotent(n: Node)
    ensures Flattened(Flattened(n)) == Flattened(n)
  {
    FlattenedStop(Flattened(n));
  }

  /** `dir/a/a/f`: the lone subdirectory `a` holds an entry `a`. */
  lemma NestedSameNameCollides(f: Node)
    ensures Collides(Dir(map["a" := Dir(map["a" := f])]))
  {
    var n := Dir(map["a" := Dir(map["a" := f])]);
    assert OnlySubdir(n, "a");
    FlattenedStep(n, "a");
  }

  // ---------------------------------------------------------------------
  // Moving the contents of the lone subdirectory up

  /** The entries of the lone subdirectory that went up... */
  function Moved(sub: map<string, Node>, moved: set<string>): map<string, Node> {
    map c | c in sub && c in moved :: sub[c]
  }

  /** ... and those still in it. */
  function Left(sub: map<string, Node>, moved: set<string>): map<string, Node> {
    map c | c in sub && c !in moved :: sub[c]
  }

  /** The listing of the directory after the entries `moved` of its lone
      subdirectory `s` (of listing `sub`) went up. */
  function Stage(sub: map<string, Node>, s: string, moved: set<string>): map<string, Node> {
    Moved(sub, moved)[s := Dir(Left(sub, moved))]
  }

  lemma StageStart(sub: map<string, Node>, s: string)
    ensures Stage(sub, s, {}) == map[s := Dir(sub)]
  {
    assert Left(sub, {}) == sub;
    assert Moved(sub, {}).Keys == {};
  }

  lemma StageStep(sub: map<string, Node>, s: string, moved: set<string>, c: string)
    requires c in sub && c !in moved && c != s && s !in moved
    ensures var e := Stage(sub, s, moved);
      s in e && e[s].Dir? && c in e[s].entries && c !in e
    ensures var e := Stage(sub, s, moved);
      e[s := Dir(e[s].entries - {c})][c := e[s].entries[c]] == Stage(sub, s, moved + {c})
  {
    var m0 := Moved(sub, moved);
    var left := Left(sub, moved);
    assert c in left && c !in m0;
    assert left - {c} == Left(sub, moved + {c});
    assert m0[c := sub[c]] == Moved(sub, moved + {c});
    assert m0[s := Dir(left)][s := Dir(left - {c})] == m0[s := Dir(left - {c})];
    assert m0[s := Dir(left - {c})][c := sub[c]] == m0[c := sub[c]][s := Dir(left - {c})];
  }

  lemma StageEnd(sub: map<string, Node>, s: string)
    requires s !in sub
    ensures Stage(sub, s, sub.Keys) == sub[s := Dir(map[])]
    ensures Stage(sub, s, sub.Keys) - {s} == sub
  {
    assert Moved(sub, sub.Keys) == sub;
    assert Left(sub, sub.Keys).Keys == {};
  }

  /** The node at `a` is a directory listing `e`; the places around it can
      take another node. */
  predicate DirAt(fs: Fs, dir: Path, e: map<string, Node>) {
    Get(fs.root, Abs(fs, dir)) == Some(Dir(e)) && CanPut(fs.root, Abs(fs, dir))
  }

  lemma WithDirAt(fs: Fs, dir: Path, e: map<string, Node>, e': map<string, Node>, t: Node)
    requires DirAt(fs, dir, e) && Replaced(t, fs.root, Abs(fs, dir), Dir(e))
    ensures DirAt(fs.(root := WithDir(fs.root, Abs(fs, dir), e')), dir, e')
    ensures Replaced(t, WithDir(fs.root, Abs(fs, dir), e'), Abs(fs, dir), Dir(e'))
  {
    var a := Abs(fs, dir);
    PutPut(t, a, Dir(e), Dir(e'));
    PutPut(fs.root, a, Dir(e'), Dir(e'));
    GetPut(fs.root, a, Dir(e'), a);
    assert a[|a|..] == [];
  }

  /** One turn of the renaming loop: the entry `c` of the lone
      subdirectory `s` goes up, unless it is named `s`. */
  lemma MoveStep(fs: Fs, dir: Path, s: string, sub: map<string, Node>, moved: set<string>, c: string, t: Node)
    requires DirAt(fs, dir, Stage(sub, s, moved)) && Replaced(t, fs.root, Abs(fs, dir), Dir(Stage(sub, s, moved)))
    requires c in sub && c !in moved && s !in moved
    ensures var r := Rename(fs, Child(Child(dir, s), c), Child(dir, c));
      && (c == s ==> r == Err(DirectoryNotEmpty))
      && (c != s ==>
            && r.Ok? && r.value.cwd == fs.cwd && DirAt(r.value, dir, Stage(sub, s, moved + {c}))
            && Replaced(t, r.value.root, Abs(fs, dir), Dir(Stage(sub, s, moved + {c}))))
  {
    var e := Stage(sub, s, moved);
    assert s in e && e[s] == Dir(Left(sub, moved)) && c in e[s].entries;
    if c != s {
      StageStep(sub, s, moved, c);
      RenameUp(fs, dir, s, c);
      WithDirAt(fs, dir, e, Stage(sub, s, moved + {c}), t);
    } else {
      RenameUp(fs, dir, s, c);
    }
  }

  /** The renaming loop of `flatten_single_subdirs`: every entry of the
      lone subdirectory `s` goes up into `dir`, in the order `read_dir`
      lists them. It fails with `DirectoryNotEmpty` when `s` holds an entry
      named `s`, which cannot replace its own parent. */
  method MoveChildrenUp(fs: Fs, dir: Path, s: string, ghost t: Node) returns (r: Result<(), IoError>, fs': Fs)
    requires OnlySubdir(Get(fs.root, Abs(fs, dir)).GetOr(File([])), s)
    requires CanPut(fs.root, Abs(fs, dir)) && Replaced(t, fs.root, Abs(fs, dir), Get(fs.root, Abs(fs, dir)).value)
    ensures fs'.cwd == fs.cwd
    ensures var sub := Get(fs.root, Abs(fs, dir)).value.entries[s].entries;
      && (s !in sub ==>
            r.Ok? && DirAt(fs', dir, sub[s := Dir(map[])]) && Replaced(t, fs'.root, Abs(fs, dir), Dir(sub[s := Dir(map[])])))
      && (s in sub ==> r == Err(DirectoryNotEmpty) && exists e :: Replaced(t, fs'.root, Abs(fs, dir), Dir(e)))
  {
    ghost var a := Abs(fs, dir);
    ghost var sub := Get(fs.root, a).value.entries[s].entries;
    var subDir := Child(dir, s);
    var children := ListSubdir(fs, dir, s);
    fs' := fs;
    for i := 0 to |children|
      invariant fs'.cwd == fs.cwd
      invariant s !in Elements(children[..i])
      invariant DirAt(fs', dir, Stage(sub, s, Elements(children[..i])))
      invariant Replaced(t, fs'.root, a, Dir(Stage(sub, s, Elements(children[..i]))))
    {
      var c := children[i];
      ghost var moved := Elements(children[..i]);
      NextElement(children, i, sub.Keys);
      MoveStep(fs', dir, s, sub, moved, c, t);
      var renamed := Rename(fs', Child(subDir, c), Child(dir, c));
      if renamed.Err? {
        return Err(renamed.error), fs';
      }
      fs' := renamed.value;
    }
    assert children[..|children|] == children;
    StageEnd(sub, s);
    return Ok(()), fs';
  }

  /** `read_dir` of the lone subdirectory `s`: its entries, each once. */
  method ListSubdir(fs: Fs, dir: Path, s: string) returns (children: seq<string>)
    requires OnlySubdir(Get(fs.root, Abs(fs, dir)).GetOr(File([])), s)
    requires CanPut(fs.root, Abs(fs, dir))
    ensures var sub := Get(fs.root, Abs(fs, dir)).value.entries[s].entries;
      Distinct(children) && Elements(children) == sub.Keys
    ensures var sub := Get(fs.root, Abs(fs, dir)).value.entries[s].entries;
      DirAt(fs, dir, Stage(sub, s, Elements(children[..0])))
  {
    ghost var a := Abs(fs, dir);
    ghost var e0 := Get(fs.root, a).value.entries;
    ghost var sub := e0[s].entries;
    assert e0 == map[s := Dir(sub)];
    StageStart(sub, s);
    AbsChild(fs, dir, s);
    GetAppend(fs.root, a, [s]);
    var listed := ListDir(fs, Child(dir, s));
    children := listed.value;
    assert Elements(children[..0]) == {};
  }

  /** The next name of a listing is new and one of the listed ones. */
  lemma NextElement(children: seq<string>, i: nat, keys: set<string>)
    requires i < |children| && Distinct(children) && Elements(children) == keys
    ensures children[i] !in Elements(children[..i]) && children[i] in keys
    ensures Elements(children[..i + 1]) == Elements(children[..i]) + {children[i]}
  {
    assert children[..i + 1] == children[..i] + [children[i]];
    ElementsAppend(children[..i], children[i]);
    forall j | 0 <= j < i ensures children[..i][j] != children[i] {
      assert children[..i][j] == children[j];
    }
  }

  /** A listing of distinct names with one name has one element. */
  lemma SingletonListing(names: seq<string>, s: string)
    requires Distinct(names) && Elements(names) == {s}
    ensures |names| == 1
  {
    DistinctCount(names);
  }

  lemma {:induction false} DistinctCount(names: seq<string>)
    requires Distinct(names)
    ensures |Elements(names)| == |names|
    decreases |names|
  {
    if names != [] {
      var init := names[..|names| - 1];
      var last := names[|names| - 1];
      assert names == init + [last];
      ElementsAppend(init, last);
      forall y | y in Elements(init) ensures y != last {
        var j :| 0 <= j < |init| && init[j] == y;
        assert init[j] == names[j];
      }
      assert Distinct(init) by {
        forall i, j | 0 <= i < j < |init| ensures init[i] != init[j] {
          assert init[i] == names[i] && init[j] == names[j];
        }
      }
      DistinctCount(init);
    } else {
      assert Elements(names) == {};
    }
  }

  /** What the loop head of `flatten_single_subdirs` learns from the
      listing of `dir`: whether it holds a lone subdirectory, which one. */
  lemma LoneEntry(fs: Fs, dir: Path, x: Node, names: seq<string>)
    requires x.Dir? && Get(fs.root, Abs(fs, dir)) == Some(x)
    requires Distinct(names) && Elements(names) == x.entries.Keys
    ensures |names| != 1 ==> forall s :: !OnlySubdir(x, s)
    ensures |names| == 1 ==>
      && names[0] in x.entries
      && (IsDir(fs, Child(dir, names[0])) <==> OnlySubdir(x, names[0]))
      && (!OnlySubdir(x, names[0]) ==> forall s :: !OnlySubdir(x, s))
  {
    forall s | OnlySubdir(x, s) ensures |names| == 1 && names[0] == s {
      SingletonListing(names, s);
      assert names[0] in Elements(names);
    }
    if |names| == 1 {
      assert names[0] in Elements(names);
      AbsChild(fs, dir, names[0]);
      GetAppend(fs.root, Abs(fs, dir), [names[0]]);
      assert Elements(names) == {names[0]} by {
        assert forall y :: y in Elements(names) ==> y == names[0];
      }
    }
  }

  /** The state when `dir` is a directory, before the first turn. */
  lemma StartAt(fs: Fs, dir: Path)
    requires IsDir(fs, dir)
    ensures var a := Abs(fs, dir); var x := Get(fs.root, a).value;
      DirAt(fs, dir, x.entries) && Replaced(fs.root, fs.root, a, x)
  {
    var a := Abs(fs, dir);
    if a != [] {
      ParentIsDir(fs.root, a);
    }
    PutGet(fs.root, a);
  }

  /** After the loop: the lone subdirectory `s`, emptied of everything
      but itself, is removed, and the directory lists what it held. */
  lemma RemoveStep(fs: Fs, dir: Path, s: string, sub: map<string, Node>, t: Node)
    requires s !in sub
    requires DirAt(fs, dir, sub[s := Dir(map[])]) && Replaced(t, fs.root, Abs(fs, dir), Dir(sub[s := Dir(map[])]))
    ensures var r := RemoveDir(fs, Child(dir, s));
      r.Ok? && r.value.cwd == fs.cwd && DirAt(r.value, dir, sub) && Replaced(t, r.value.root, Abs(fs, dir), Dir(sub))
  {
    assert sub[s := Dir(map[])] - {s} == sub;
    RemoveEmptyChild(fs, dir, s);
    WithDirAt(fs, dir, sub[s := Dir(map[])], sub, t);
  }

  // ---------------------------------------------------------------------
  // `flatten_single_subdirs`

  /** `flatten_single_subdirs(dir)` as the source has it. While `dir` holds
      a lone subdirectory, that subdirectory's entries are moved up and it
      is removed. The result is the flattened tree, unless some lone
      subdirectory down the chain holds an entry of its own name: that
      entry cannot be renamed onto its parent, the call fails with
      `DirectoryNotEmpty` and leaves the tree half moved. */
  method FlattenSingleSubdirs(fs: Fs, dir: Path) returns (r: Result<(), IoError>, fs': Fs)
    ensures fs'.cwd == fs.cwd
    ensures !IsDir(fs, dir) ==> r == Err(ReadDir(fs, dir).error) && fs' == fs
    ensures IsDir(fs, dir) ==>
      var a := Abs(fs, dir); var n := Get(fs.root, a).value;
      && (r.Ok? <==> !Collides(n))
      && (r.Ok? ==> Replaced(fs.root, fs'.root, a, Flattened(n)))
      && (r.Err? ==> r.error == DirectoryNotEmpty && exists e :: Replaced(fs.root, fs'.root, a, Dir(e)))
  {
    ghost var a := Abs(fs, dir);
    ghost var n := Get(fs.root, a).GetOr(File([]));
    ghost var x := n;
    if IsDir(fs, dir) {
      StartAt(fs, dir);
    }
    fs' := fs;
    while true
      invariant fs'.cwd == fs.cwd
      invariant !IsDir(fs, dir) ==> fs' == fs
      invariant IsDir(fs, dir) ==>
        && x.Dir? && DirAt(fs', dir, x.entries) && Replaced(fs.root, fs'.root, a, x)
        && Flattened(x) == Flattened(n) && (Collides(x) <==> Collides(n))
      decreases x
    {
      var listed := ListDir(fs', dir);
      if listed.Err? {
        return Err(listed.error), fs';
      }
      var entries := listed.value;
      LoneEntry(fs', dir, x, entries);
      if |entries| != 1 {
        break;
      }
      var s := entries[0];
      if !IsDir(fs', Child(dir, s)) {
        break;
      }
      FlattenedStep(x, s);
      var moved, next := MoveChildrenUp(fs', dir, s, fs.root);
      if moved.Err? {
        return moved, next;
      }
      RemoveStep(next, dir, s, x.entries[s].entries, fs.root);
      var removed := RemoveDir(next, Child(dir, s));
      fs' := removed.value;
      x := x.entries[s];
    }
    FlattenedStop(x);
    return Ok(()), fs';
  }

  // ---------------------------------------------------------------------
  // Flattening without the clash

  /** The length of the longest name. */
  function Longest(names: seq<string>): (k: nat)
    ensures forall i :: 0 <= i < |names| ==> |names[i]| <= k
  {
    if names == [] then 0
    else
      var k := Longest(names[1..]);
      assert forall i :: 1 <= i < |names| ==> names[i] == names[1..][i - 1];
      if |names[0]| > k then |names[0]| else k
  }

  /** A name longer than every name given, so none of them. */
  function FreshName(names: seq<string>): (r: string)
    ensures r != [] && forall i :: 0 <= i < |names| ==> names[i] != r
  {
    seq(Longest(names) + 1, _ => '_')
  }

  /** Flattening as it is meant: the lone subdirectory is first renamed to
      a name none of its entries has, so that all of them, one with its old
      name included, can go up. Every directory becomes its flattened
      form. */
  method Flatten(fs: Fs, dir: Path) returns (r: Result<(), IoError>, fs': Fs)
    ensures fs'.cwd == fs.cwd
    ensures !IsDir(fs, dir) ==> r == Err(ReadDir(fs, dir).error) && fs' == fs
    ensures IsDir(fs, dir) ==> r.Ok? && Replaced(fs.root, fs'.root, Abs(fs, dir), Flattened(Get(fs.root, Abs(fs, dir)).value))
  {
    ghost var a := Abs(fs, dir);
    ghost var n := Get(fs.root, a).GetOr(File([]));
    ghost var x := n;
    if IsDir(fs, dir) {
      StartAt(fs, dir);
    }
    fs' := fs;
    while true
      invariant fs'.cwd == fs.cwd
      invariant !IsDir(fs, dir) ==> fs' == fs
      invariant IsDir(fs, dir) ==>
        x.Dir? && DirAt(fs', dir, x.entries) && Replaced(fs.root, fs'.root, a, x) && Flattened(x) == Flattened(n)
      decreases x
    {
      var listed := ListDir(fs', dir);
      if listed.Err? {
        return Err(listed.error), fs';
      }
      var entries := listed.value;
      LoneEntry(fs', dir, x, entries);
      if |entries| != 1 {
        break;
      }
      var s := entries[0];
      if !IsDir(fs', Child(dir, s)) {
        break;
      }
      FlattenedStep(x, s);
      var inner := ListSubdir(fs', dir, s);
      var aside := FreshName([s] + inner);
      ghost var sub := x.entries[s].entries;
      assert aside != s && aside !in sub by {
        assert ([s] + inner)[0] == s;
        forall i | 0 <= i < |inner| ensures inner[i] != aside {
          assert ([s] + inner)[i + 1] == inner[i];
        }
      }
      var renamed := RenameTo(fs', dir, s, aside, fs.root);
      var moved, next := MoveChildrenUp(renamed, dir, aside, fs.root);
      RemoveStep(next, dir, aside, sub, fs.root);
      var removed := RemoveDir(next, Child(dir, aside));
      fs' := removed.value;
      x := x.entries[s];
    }
    FlattenedStop(x);
    return Ok(()), fs';
  }

  /** `fs::rename(dir/s, dir/aside)` of the lone subdirectory to an unused
      name. */
  method RenameTo(fs: Fs, dir: Path, s: string, aside: string, ghost t: Node) returns (fs': Fs)
    requires OnlySubdir(Get(fs.root, Abs(fs, dir)).GetOr(File([])), s) && aside != s
    requires DirAt(fs, dir, Get(fs.root, Abs(fs, dir)).value.entries)
    requires Replaced(t, fs.root, Abs(fs, dir), Get(fs.root, Abs(fs, dir)).value)
    ensures fs'.cwd == fs.cwd
    ensures var sub := Get(fs.root, Abs(fs, dir)).value.entries[s];
      && Get(fs'.root, Abs(fs, dir)) == Some(Dir(map[aside := sub]))
      && OnlySubdir(Get(fs'.root, Abs(fs, dir)).GetOr(File([])), aside)
      && CanPut(fs'.root, Abs(fs, dir)) && Replaced(t, fs'.root, Abs(fs, dir), Dir(map[aside := sub]))
  {
    ghost var e := Get(fs.root, Abs(fs, dir)).value.entries;
    assert e == map[s := e[s]];
    assert (e - {s})[aside := e[s]] == map[aside := e[s]];
    RenameAside(fs, dir, s, aside);
    WithDirAt(fs, dir, e, map[aside := e[s]], t);
    var renamed := Rename(fs, Child(dir, s), Child(dir, aside));
    fs' := renamed.value;
  }

  // ---------------------------------------------------------------------
  // `walkdir`

  /** The relative locations `rels` with `[name]` in front. */
  function Under(name: string, rels: seq<seq<string>>): (r: seq<seq<string>>)
    ensures |r| == |rels| && forall j :: 0 <= j < |r| ==> r[j] == [name] + rels[j]
  {
    seq(|rels|, j requires 0 <= j < |rels| => [name] + rels[j])
  }

  /** `paths` names, each once, every file below the directory `n` at
      `Abs(fs, dir)`, and nothing else; `rels` gives each one's location
      relative to `dir`. */
  ghost predicate Walk(fs: Fs, dir: Path, n: Node, paths: seq<Path>, rels: seq<seq<string>>) {
    && |rels| == |paths| && Distinct(rels)
    && (forall j :: 0 <= j < |paths| ==>
          && rels[j] != [] && Abs(fs, paths[j]) == Abs(fs, dir) + rels[j] && IsFileAt(n, rels[j])
          && FileName(paths[j]) == Some(rels[j][|rels[j]| - 1]))
    && (forall rel :: IsFileAt(n, rel) ==> rel in rels)
  }

  /** The loop invariant of `walkdir`: the entries `names[..i]` are walked. */
  ghost predicate WalkedUpTo(fs: Fs, dir: Path, n: Node, done: set<string>, paths: seq<Path>, rels: seq<seq<string>>) {
    && |rels| == |paths| && Distinct(rels)
    && (forall j :: 0 <= j < |paths| ==>
          && rels[j] != [] && rels[j][0] in done && Abs(fs, paths[j]) == Abs(fs, dir) + rels[j] && IsFileAt(n, rels[j])
          && FileName(paths[j]) == Some(rels[j][|rels[j]| - 1]))
    && (forall rel :: IsFileAt(n, rel) && rel != [] && rel[0] in done ==> rel in rels)
  }

  /** A file `name` directly in the directory joins the walked ones. */
  lemma WalkFile(fs: Fs, dir: Path, n: Node, done: set<string>, paths: seq<Path>, rels: seq<seq<string>>, name: string)
    requires n.Dir? && name in n.entries && n.entries[name].File? && name !in done
    requires WalkedUpTo(fs, dir, n, done, paths, rels)
    ensures WalkedUpTo(fs, dir, n, done + {name}, paths + [Child(dir, name)], rels + [[name]])
  {
    AbsChild(fs, dir, name);
    assert Get(n, [name]) == Some(n.entries[name]);
    var rels' := rels + [[name]];
    forall rel | IsFileAt(n, rel) && rel != [] && rel[0] in done + {name} ensures rel in rels' {
      if rel[0] == name {
        assert Get(n, rel) == Get(n.entries[name], rel[1..]);
        assert rel == [name];
        assert rels'[|rels|] == rel;
      } else {
        assert rel in rels;
        var j :| 0 <= j < |rels| && rels[j] == rel;
        assert rels'[j] == rel;
      }
    }
    forall i, j | 0 <= i < j < |rels'| ensures rels'[i] != rels'[j] {
      if j == |rels| {
        assert rels'[i][0] in done;
      }
    }
  }

  /** The walked files of the entry `name`, relative to the directory. */
  ghost predicate WalkedEntry(fs: Fs, dir: Path, n: Node, name: string, paths: seq<Path>, rels: seq<seq<string>>) {
    && |rels| == |paths| && Distinct(rels)
    && (forall j :: 0 <= j < |paths| ==>
          && rels[j] != [] && rels[j][0] == name && Abs(fs, paths[j]) == Abs(fs, dir) + rels[j] && IsFileAt(n, rels[j])
          && FileName(paths[j]) == Some(rels[j][|rels[j]| - 1]))
    && (forall rel :: IsFileAt(n, rel) && rel != [] && rel[0] == name ==> rel in rels)
  }

  /** The files of a subdirectory `name`, found by the inner call, seen from
      the directory. */
  lemma WalkSubdir(fs: Fs, dir: Path, n: Node, name: string, sub: seq<Path>, subRels: seq<seq<string>>)
    requires n.Dir? && name in n.entries
    requires Walk(fs, Child(dir, name), n.entries[name], sub, subRels)
    ensures WalkedEntry(fs, dir, n, name, sub, Under(name, subRels))
  {
    SubdirFiles(fs, dir, n, name, sub, subRels);
    SubdirComplete(n, name, subRels);
    UnderDistinct(name, subRels);
  }

  lemma SubdirFiles(fs: Fs, dir: Path, n: Node, name: string, sub: seq<Path>, subRels: seq<seq<string>>)
    requires n.Dir? && name in n.entries
    requires Walk(fs, Child(dir, name), n.entries[name], sub, subRels)
    ensures var u := Under(name, subRels); forall j :: 0 <= j < |u| ==>
      && u[j] != [] && u[j][0] == name && IsFileAt(n, u[j]) && Abs(fs, sub[j]) == Abs(fs, dir) + u[j]
      && FileName(sub[j]) == Some(u[j][|u[j]| - 1])
  {
    AbsChild(fs, dir, name);
    var u := Under(name, subRels);
    var a := Abs(fs, dir);
    forall j | 0 <= j < |u|
      ensures u[j] != [] && u[j][0] == name && IsFileAt(n, u[j])
      ensures Abs(fs, sub[j]) == a + u[j]
      ensures FileName(sub[j]) == Some(u[j][|u[j]| - 1])
    {
      assert u[j][0] == name && u[j][1..] == subRels[j];
      assert Get(n, u[j]) == Get(n.entries[name], subRels[j]);
      assert a + [name] + subRels[j] == a + u[j];
      assert u[j][|u[j]| - 1] == subRels[j][|subRels[j]| - 1];
    }
  }

  lemma SubdirComplete(n: Node, name: string, subRels: seq<seq<string>>)
    requires n.Dir? && name in n.entries
    requires forall rel :: IsFileAt(n.entries[name], rel) ==> rel in subRels
    ensures forall rel :: IsFileAt(n, rel) && rel != [] && rel[0] == name ==> rel in Under(name, subRels)
  {
    var u := Under(name, subRels);
    forall rel | IsFileAt(n, rel) && rel != [] && rel[0] == name ensures rel in u {
      assert Get(n, rel) == Get(n.entries[name], rel[1..]);
      assert rel[1..] in subRels;
      var j :| 0 <= j < |subRels| && subRels[j] == rel[1..];
      assert u[j] == rel;
    }
  }

  lemma UnderDistinct(name: string, rels: seq<seq<string>>)
    requires Distinct(rels)
    ensures Distinct(Under(name, rels))
  {
    var u := Under(name, rels);
    forall i, j | 0 <= i < j < |u| ensures u[i] != u[j] {
      assert u[i][1..] == rels[i] && u[j][1..] == rels[j];
    }
  }

  /** A walked entry not walked before joins the walked ones. */
  lemma WalkAppend(fs: Fs, dir: Path, n: Node, done: set<string>, paths: seq<Path>, rels: seq<seq<string>>,
                   name: string, more: seq<Path>, moreRels: seq<seq<string>>)
    requires name !in done
    requires WalkedUpTo(fs, dir, n, done, paths, rels) && WalkedEntry(fs, dir, n, name, more, moreRels)
    ensures WalkedUpTo(fs, dir, n, done + {name}, paths + more, rels + moreRels)
  {
    var rels' := rels + moreRels;
    var paths' := paths + more;
    forall j | |paths| <= j < |paths'| ensures paths'[j] == more[j - |paths|] && rels'[j] == moreRels[j - |paths|] {
    }
    forall rel | IsFileAt(n, rel) && rel != [] && rel[0] in done + {name} ensures rel in rels' {
      if rel[0] == name {
        var j :| 0 <= j < |moreRels| && moreRels[j] == rel;
        assert rels'[|rels| + j] == rel;
      } else {
        var j :| 0 <= j < |rels| && rels[j] == rel;
        assert rels'[j] == rel;
      }
    }
    forall i, j | 0 <= i < j < |rels'| ensures rels'[i] != rels'[j] {
      if i < |rels| <= j {
        assert rels'[i][0] in done && rels'[j][0] == name;
      }
    }
  }

  /** `walkdir(dir)`: every file below `dir`, each once, in the order
      `read_dir` lists the entries. */
  method Walkdir(fs: Fs, dir: Path) returns (r: Result<seq<Path>, IoError>, ghost rels: seq<seq<string>>)
    ensures r.Err? <==> !IsDir(fs, dir)
    ensures r.Err? ==> r.error == ReadDir(fs, dir).error
    ensures r.Ok? ==> Walk(fs, dir, Get(fs.root, Abs(fs, dir)).value, r.value, rels)
    decreases Get(fs.root, Abs(fs, dir)).GetOr(File([]))
  {
    var listed := ListDir(fs, dir);
    if listed.Err? {
      return Err(listed.error), [];
    }
    var names := listed.value;
    ghost var n := Get(fs.root, Abs(fs, dir)).value;
    var files: seq<Path> := [];
    rels := [];
    for i := 0 to |names|
      invariant WalkedUpTo(fs, dir, n, Elements(names[..i]), files, rels)
    {
      var name := names[i];
      NextElement(names, i, n.entries.Keys);
      var path := Child(dir, name);
      ChildNode(fs, dir, name);
      if IsDir(fs, path) {
        var sub, subRels := Walkdir(fs, path);
        WalkSubdir(fs, dir, n, name, sub.value, subRels);
        WalkAppend(fs, dir, n, Elements(names[..i]), files, rels, name, sub.value, Under(name, subRels));
        files := files + sub.value;
        rels := rels + Under(name, subRels);
      } else {
        WalkFile(fs, dir, n, Elements(names[..i]), files, rels, name);
        files := files + [path];
        rels := rels + [[name]];
      }
    }
    assert names[..|names|] == names;
    WalkedAll(fs, dir, n, Elements(names), files, rels);
    return Ok(files), rels;
  }

  /** The entry `name` of a directory is the node at its child path. */
  lemma ChildNode(fs: Fs, dir: Path, name: string)
    requires IsDir(fs, dir) && name in Get(fs.root, Abs(fs, dir)).value.entries
    ensures Abs(fs, Child(dir, name)) == Abs(fs, dir) + [name]
    ensures Get(fs.root, Abs(fs, Child(dir, name))) == Some(Get(fs.root, Abs(fs, dir)).value.entries[name])
  {
    AbsChild(fs, dir, name);
    GetAppend(fs.root, Abs(fs, dir), [name]);
    assert [name][1..] == [];
  }

  /** Once every entry of the directory is walked, the walk is complete. */
  lemma WalkedAll(fs: Fs, dir: Path, n: Node, done: set<string>, paths: seq<Path>, rels: seq<seq<string>>)
    requires n.Dir? && done == n.entries.Keys && WalkedUpTo(fs, dir, n, done, paths, rels)
    ensures Walk(fs, dir, n, paths, rels)
  {
    forall rel | IsFileAt(n, rel) ensures rel != [] && rel[0] in done {
      assert rel != [];
      assert rel[0] in n.entries;
    }
  }

  // ---------------------------------------------------------------------
  // `copy_diff_files`

  /** The extension of a chart file (`bms`, `bme`, `bml`, `bmson`), compared
      after lower-casing. */
  predicate IsDiffFile(p: Path) {
    Lower(Extension(p).GetOr("")) in ChartExtensions
  }

  const ChartExtensions: set<string> := {"bms", "bme", "bml", "bmson"}

  /** A file name with a chart extension. */
  predicate IsChartName(name: string) {
    Lower(ExtensionOf(name).GetOr("")) in ChartExtensions
  }

  /** Every path ends with a file name. */
  predicate Named(files: seq<Path>) {
    forall j :: 0 <= j < |files| ==> FileName(files[j]).Some?
  }

  /** The loop of `copy_diff_files` over the walked `files`: a chart file is
      copied into `dest` under its own name unless that name is taken; the
      first failed copy ends the loop with its error and leaves the copies
      made so far. */
  function CopyFrom(fs: Fs, files: seq<Path>, dest: Path, count: nat): (Result<nat, IoError>, Fs)
    requires Named(files)
    decreases |files|
  {
    if files == [] then (Ok(count), fs)
    else
      var f := files[0];
      var to := Child(dest, FileName(f).value);
      if !IsDiffFile(f) || Exists(fs, to) then CopyFrom(fs, files[1..], dest, count)
      else match Copy(fs, f, to)
        case Err(e) => (Err(e), fs)
        case Ok(fs1) => CopyFrom(fs1, files[1..], dest, count + 1)
  }

  /** The names of the chart files among `files`. */
  ghost function ChartNames(files: seq<Path>): set<string>
    requires Named(files)
    decreases |files|
  {
    if files == [] then {}
    else (if IsDiffFile(files[0]) then {FileName(files[0]).value} else {}) + ChartNames(files[1..])
  }

  /** The chart names not yet taken in the directory at `d`. */
  ghost function FreeNames(t: Node, d: seq<string>, files: seq<Path>): set<string>
    requires Named(files)
  {
    set n | n in ChartNames(files) && Get(t, d + [n]).None?
  }

  /** `q` lies on the way to `d` or is the entry `n` of `d` for a name in
      `names`. */
  predicate Touched(q: seq<string>, d: seq<string>, names: set<string>) {
    IsPrefix(q, d) || (|q| == |d| + 1 && q[..|d|] == d && q[|d|] in names)
  }

  /** A name among `files`, and so a chart name if the path is a chart file. */
  lemma ChartNamesFirst(files: seq<Path>)
    requires Named(files) && files != []
    ensures ChartNames(files) == ChartNames(files[1..]) + (if IsDiffFile(files[0]) then {FileName(files[0]).value} else {})
  {
  }

  lemma NamedRest(files: seq<Path>)
    requires Named(files) && files != []
    ensures Named(files[1..])
  {
    forall j | 0 <= j < |files| - 1 ensures FileName(files[1..][j]).Some? {
      assert files[1..][j] == files[j + 1];
    }
  }

  /** The copy loop keeps every file and directory there was, and changes
      only locations on the way to `dest` and the entries of `dest` under
      chart names that were free. */
  lemma {:induction false} CopyFromFrame(fs: Fs, files: seq<Path>, dest: Path, count: nat, q: seq<string>)
    requires Named(files) && forall j :: 0 <= j < |files| ==> IsFile(fs, files[j])
    ensures var (r, fs') := CopyFrom(fs, files, dest, count); var d := Abs(fs, dest);
      && fs'.cwd == fs.cwd
      && (IsFileAt(fs.root, q) ==> Get(fs'.root, q) == Get(fs.root, q))
      && (IsDirAt(fs.root, q) ==> IsDirAt(fs'.root, q))
      && (Get(fs'.root, q) != Get(fs.root, q) ==> Touched(q, d, FreeNames(fs.root, d, files)))
    decreases |files|
  {
    if files != [] {
      var f := files[0];
      var name := FileName(f).value;
      var to := Child(dest, name);
      var d := Abs(fs, dest);
      NamedRest(files);
      ChartNamesFirst(files);
      AbsChild(fs, dest, name);
      if !IsDiffFile(f) || Exists(fs, to) {
        forall j | 0 <= j < |files| - 1 ensures IsFile(fs, files[1..][j]) {
          assert files[1..][j] == files[j + 1];
        }
        CopyFromFrame(fs, files[1..], dest, count, q);
        assert FreeNames(fs.root, d, files[1..]) <= FreeNames(fs.root, d, files);
      } else if Copy(fs, f, to).Ok? {
        var fs1 := Copy(fs, f, to).value;
        CopyOntoFree(fs, f, to, q);
        forall j | 0 <= j < |files| - 1 ensures IsFile(fs1, files[1..][j]) {
          assert files[1..][j] == files[j + 1];
          CopyOntoFree(fs, f, to, Abs(fs, files[j + 1]));
        }
        CopyFromFrame(fs1, files[1..], dest, count + 1, q);
        forall n | n in FreeNames(fs1.root, d, files[1..]) ensures n in FreeNames(fs.root, d, files) {
          CopyOntoFree(fs, f, to, d + [n]);
        }
        assert d + [name] == Abs(fs, to);
        if Get(fs1.root, q) != Get(fs.root, q) {
          assert IsPrefix(q, d + [name]);
          if |q| <= |d| {
            assert q == (d + [name])[..|q|];
          } else {
            assert q == d + [name];
          }
        }
      }
    }
  }

  /** A copy onto the free entry `name` of `d` takes that name and no
      other. */
  lemma CopyTakesName(fs: Fs, f: Path, dest: Path, name: string, n: string)
    requires IsFile(fs, f) && !Exists(fs, Child(dest, name)) && Copy(fs, f, Child(dest, name)).Ok?
    ensures var d := Abs(fs, dest); var t := Copy(fs, f, Child(dest, name)).value.root;
      && Get(t, d + [name]).Some?
      && (n != name ==> Get(t, d + [n]) == Get(fs.root, d + [n]))
  {
    var d := Abs(fs, dest);
    AbsChild(fs, dest, name);
    CopyOntoFree(fs, f, Child(dest, name), d + [n]);
    if IsPrefix(d + [n], d + [name]) {
      assert (d + [n])[|d|] == n;
    }
  }

  /** A skipped path leaves the free names as they were. */
  lemma FreeNamesSkip(t: Node, d: seq<string>, files: seq<Path>)
    requires Named(files) && files != []
    requires !IsDiffFile(files[0]) || Get(t, d + [FileName(files[0]).value]).Some?
    ensures Named(files[1..]) && FreeNames(t, d, files) == FreeNames(t, d, files[1..])
  {
    NamedRest(files);
    ChartNamesFirst(files);
  }

  /** A copy takes one free name out of the free names. */
  lemma FreeNamesCopy(t: Node, t1: Node, d: seq<string>, files: seq<Path>)
    requires Named(files) && files != [] && IsDiffFile(files[0])
    requires var name := FileName(files[0]).value;
      && Get(t, d + [name]).None? && Get(t1, d + [name]).Some?
      && forall n :: n != name ==> Get(t1, d + [n]) == Get(t, d + [n])
    ensures Named(files[1..])
    ensures var name := FileName(files[0]).value;
      && name !in FreeNames(t1, d, files[1..])
      && FreeNames(t, d, files) == FreeNames(t1, d, files[1..]) + {name}
  {
    NamedRest(files);
    ChartNamesFirst(files);
  }

  /** A finished loop counted the chart names that were free. */
  lemma {:induction false} CopyFromCount(fs: Fs, files: seq<Path>, dest: Path, count: nat)
    requires Named(files) && forall j :: 0 <= j < |files| ==> IsFile(fs, files[j])
    ensures var r := CopyFrom(fs, files, dest, count).0;
      r.Ok? ==> r.value == count + |FreeNames(fs.root, Abs(fs, dest), files)|
    decreases |files|
  {
    var d := Abs(fs, dest);
    if files == [] {
      assert FreeNames(fs.root, d, files) == {};
    } else {
      var f := files[0];
      var name := FileName(f).value;
      var to := Child(dest, name);
      var rest := files[1..];
      NamedRest(files);
      AbsChild(fs, dest, name);
      if !IsDiffFile(f) || Exists(fs, to) {
        assert CopyFrom(fs, files, dest, count) == CopyFrom(fs, rest, dest, count);
        forall j | 0 <= j < |rest| ensures IsFile(fs, rest[j]) {
          assert rest[j] == files[j + 1];
        }
        CopyFromCount(fs, rest, dest, count);
        FreeNamesSkip(fs.root, d, files);
      } else if Copy(fs, f, to).Ok? {
        var fs1 := Copy(fs, f, to).value;
        assert CopyFrom(fs, files, dest, count) == CopyFrom(fs1, rest, dest, count + 1);
        RestStillFiles(fs, files, dest);
        CopyFromCount(fs1, rest, dest, count + 1);
        CopyFreesOne(fs, files, dest);
        var free1 := FreeNames(fs1.root, d, rest);
        assert |free1 + {name}| == |free1| + 1;
      }
    }
  }

  /** The paths after a copied one are still files. */
  lemma RestStillFiles(fs: Fs, files: seq<Path>, dest: Path)
    requires Named(files) && files != [] && forall j :: 0 <= j < |files| ==> IsFile(fs, files[j])
    requires var to := Child(dest, FileName(files[0]).value);
      !Exists(fs, to) && Copy(fs, files[0], to).Ok?
    ensures var fs1 := Copy(fs, files[0], Child(dest, FileName(files[0]).value)).value;
      forall j :: 0 <= j < |files| - 1 ==> IsFile(fs1, files[1..][j])
  {
    var to := Child(dest, FileName(files[0]).value);
    forall j | 0 <= j < |files| - 1
      ensures IsFile(Copy(fs, files[0], to).value, files[1..][j])
    {
      assert files[1..][j] == files[j + 1];
      CopyOntoFree(fs, files[0], to, Abs(fs, files[j + 1]));
    }
  }

  /** The copy of a chart file onto its free name takes that name out of
      the free names and leaves the others. */
  lemma CopyFreesOne(fs: Fs, files: seq<Path>, dest: Path)
    requires Named(files) && files != [] && IsFile(fs, files[0]) && IsDiffFile(files[0])
    requires var to := Child(dest, FileName(files[0]).value);
      !Exists(fs, to) && Copy(fs, files[0], to).Ok?
    ensures Named(files[1..])
    ensures var name := FileName(files[0]).value; var d := Abs(fs, dest);
      var fs1 := Copy(fs, files[0], Child(dest, name)).value;
      && name !in FreeNames(fs1.root, d, files[1..])
      && FreeNames(fs.root, d, files) == FreeNames(fs1.root, d, files[1..]) + {name}
  {
    var name := FileName(files[0]).value;
    var d := Abs(fs, dest);
    var fs1 := Copy(fs, files[0], Child(dest, name)).value;
    AbsChild(fs, dest, name);
    CopyTakesName(fs, files[0], dest, name, name);
    forall n | n != name ensures Get(fs1.root, d + [n]) == Get(fs.root, d + [n]) {
      CopyTakesName(fs, files[0], dest, name, n);
    }
    FreeNamesCopy(fs.root, fs1.root, d, files);
  }

  /** After a finished loop every chart name is taken in `dest`. */
  lemma {:induction false} CopyFromTakes(fs: Fs, files: seq<Path>, dest: Path, count: nat)
    requires Named(files) && forall j :: 0 <= j < |files| ==> IsFile(fs, files[j])
    ensures var (r, fs') := CopyFrom(fs, files, dest, count);
      r.Ok? ==> forall n :: n in ChartNames(files) ==> Get(fs'.root, Abs(fs, dest) + [n]).Some?
    decreases |files|
  {
    if files != [] {
      var d := Abs(fs, dest);
      var f := files[0];
      var name := FileName(f).value;
      var to := Child(dest, name);
      var rest := files[1..];
      NamedRest(files);
      ChartNamesFirst(files);
      AbsChild(fs, dest, name);
      if !IsDiffFile(f) || Exists(fs, to) {
        assert CopyFrom(fs, files, dest, count) == CopyFrom(fs, rest, dest, count);
        forall j | 0 <= j < |rest| ensures IsFile(fs, rest[j]) {
          assert rest[j] == files[j + 1];
        }
        CopyFromTakes(fs, rest, dest, count);
        CopyFromFrame(fs, rest, dest, count, d + [name]);
      } else if Copy(fs, f, to).Ok? {
        var fs1 := Copy(fs, f, to).value;
        assert CopyFrom(fs, files, dest, count) == CopyFrom(fs1, rest, dest, count + 1);
        RestStillFiles(fs, files, dest);
        CopyFromTakes(fs1, rest, dest, count + 1);
        CopyFromFrame(fs1, rest, dest, count + 1, d + [name]);
        CopyTakesName(fs, f, dest, name, name);
      }
    }
  }

  /** The index of the first chart file among `files` named `n`. */
  function FirstChart(files: seq<Path>, n: string): (j: nat)
    requires Named(files) && n in ChartNames(files)
    ensures j < |files| && IsDiffFile(files[j]) && FileName(files[j]) == Some(n)
    ensures forall k :: 0 <= k < j ==> !(IsDiffFile(files[k]) && FileName(files[k]) == Some(n))
    decreases |files|
  {
    NamedRest(files);
    if IsDiffFile(files[0]) && FileName(files[0]) == Some(n) then 0
    else 1 + FirstChart(files[1..], n)
  }

  /** After a finished loop each name that was free holds the bytes of the
      first chart file of that name in walk order. */
  lemma {:induction false} CopyFromContents(fs: Fs, files: seq<Path>, dest: Path, count: nat, n: string)
    requires Named(files) && forall j :: 0 <= j < |files| ==> IsFile(fs, files[j])
    requires n in FreeNames(fs.root, Abs(fs, dest), files)
    ensures var (r, fs') := CopyFrom(fs, files, dest, count);
      r.Ok? ==> Get(fs'.root, Abs(fs, dest) + [n]) == Get(fs.root, Abs(fs, files[FirstChart(files, n)]))
    decreases |files|
  {
    var d := Abs(fs, dest);
    var f := files[0];
    var name := FileName(f).value;
    var to := Child(dest, name);
    var rest := files[1..];
    NamedRest(files);
    ChartNamesFirst(files);
    AbsChild(fs, dest, name);
    if !IsDiffFile(f) || Exists(fs, to) {
      assert CopyFrom(fs, files, dest, count) == CopyFrom(fs, rest, dest, count);
      forall j | 0 <= j < |rest| ensures IsFile(fs, rest[j]) {
        assert rest[j] == files[j + 1];
      }
      FreeNamesSkip(fs.root, d, files);
      CopyFromContents(fs, rest, dest, count, n);
      assert FirstChart(files, n) == 1 + FirstChart(rest, n);
    } else if Copy(fs, f, to).Ok? {
      var fs1 := Copy(fs, f, to).value;
      assert CopyFrom(fs, files, dest, count) == CopyFrom(fs1, rest, dest, count + 1);
      RestStillFiles(fs, files, dest);
      CopyFreesOne(fs, files, dest);
      if n == name {
        CopyOntoFree(fs, f, to, Abs(fs, to));
        CopyFromFrame(fs1, rest, dest, count + 1, d + [name]);
      } else {
        CopyFromContents(fs1, rest, dest, count + 1, n);
        var k := FirstChart(rest, n);
        assert FirstChart(files, n) == 1 + k;
        assert rest[k] == files[k + 1];
        CopyOntoFree(fs, f, to, Abs(fs, files[k + 1]));
      }
    }
  }

  /** `files` lists every file below the directory `dir`, as `walkdir` does. */
  ghost predicate Walked(fs: Fs, dir: Path, files: seq<Path>) {
    IsDir(fs, dir) && exists rels :: Walk(fs, dir, Get(fs.root, Abs(fs, dir)).value, files, rels)
  }

  /** The walked paths name existing files by their file names. */
  lemma WalkedFiles(fs: Fs, dir: Path, files: seq<Path>)
    requires Walked(fs, dir, files)
    ensures Named(files) && forall j :: 0 <= j < |files| ==> IsFile(fs, files[j])
  {
    var n := Get(fs.root, Abs(fs, dir)).value;
    var rels :| Walk(fs, dir, n, files, rels);
    forall j | 0 <= j < |files| ensures IsFile(fs, files[j]) {
      GetAppend(fs.root, Abs(fs, dir), rels[j]);
    }
  }

  /** `copy_diff_files(src, dest)`: nothing to do for a missing `src`;
      otherwise the files below `src` are walked and their chart files
      copied by `CopyFrom`. */
  method CopyDiffFiles(fs: Fs, src: Path, dest: Path) returns (r: Result<nat, IoError>, fs': Fs, ghost files: seq<Path>)
    ensures !Exists(fs, src) ==> r == Ok(0) && fs' == fs
    ensures Exists(fs, src) && !IsDir(fs, src) ==> r == Err(NotADirectory) && fs' == fs
    ensures IsDir(fs, src) ==> Walked(fs, src, files) && Named(files) && (r, fs') == CopyFrom(fs, files, dest, 0)
  {
    if !Exists(fs, src) {
      return Ok(0), fs, [];
    }
    var walked, rels := Walkdir(fs, src);
    if walked.Err? {
      return Err(walked.error), fs, [];
    }
    var paths := walked.value;
    files := paths;
    WalkedFiles(fs, src, paths);
    var count: nat := 0;
    fs' := fs;
    for i := 0 to |paths|
      invariant Named(paths[i..])
      invariant CopyFrom(fs', paths[i..], dest, count) == CopyFrom(fs, paths, dest, 0)
    {
      NamedRest(paths[i..]);
      assert paths[i..][1..] == paths[i + 1..];
      var p := paths[i];
      var to := Child(dest, FileName(p).value);
      if IsDiffFile(p) && !Exists(fs', to) {
        var copied := Copy(fs', p, to);
        if copied.Err? {
          return Err(copied.error), fs', files;
        }
        fs' := copied.value;
        count := count + 1;
      }
    }
    assert paths == paths[0..];
    r := Ok(count);
  }

  /** Each chart file's name is among the chart names. */
  lemma {:induction false} ChartNamesHas(files: seq<Path>, j: nat)
    requires Named(files) && j < |files| && IsDiffFile(files[j])
    ensures FileName(files[j]).value in ChartNames(files)
    decreases j
  {
    NamedRest(files);
    var here := if IsDiffFile(files[0]) then {FileName(files[0]).value} else {};
    assert ChartNames(files) == here + ChartNames(files[1..]);
    if j > 0 {
      assert files[1..][j - 1] == files[j];
      ChartNamesHas(files[1..], j - 1);
    }
  }

  /** The chart names of a walk are the names of the chart files below the
      directory. */
  lemma WalkedChartNames(fs: Fs, dir: Path, files: seq<Path>)
    requires Walked(fs, dir, files)
    ensures Named(files)
    ensures var n := Get(fs.root, Abs(fs, dir)).value;
      forall rel :: IsFileAt(n, rel) && rel != [] && IsChartName(rel[|rel| - 1]) ==> rel[|rel| - 1] in ChartNames(files)
    ensures forall name :: name in ChartNames(files) ==> IsChartName(name)
  {
    var n := Get(fs.root, Abs(fs, dir)).value;
    var rels :| Walk(fs, dir, n, files, rels);
    WalkedFiles(fs, dir, files);
    forall rel | IsFileAt(n, rel) && rel != [] && IsChartName(rel[|rel| - 1])
      ensures rel[|rel| - 1] in ChartNames(files)
    {
      var j :| 0 <= j < |rels| && rels[j] == rel;
      ChartNamesHas(files, j);
    }
    forall name | name in ChartNames(files) ensures IsChartName(name) {
      var j := FirstChart(files, name);
    }
  }

  /** Once `copy_diff_files` has succeeded, every chart file below `src`
      has a namesake in `dest`, and each name `dest` lacked before holds the
      bytes of the first chart file of that name. */
  lemma CopyDiffFilesSpec(fs: Fs, src: Path, dest: Path, files: seq<Path>)
    requires Walked(fs, src, files)
    ensures Named(files)
    ensures var (r, fs') := CopyFrom(fs, files, dest, 0); var d := Abs(fs, dest);
      var n := Get(fs.root, Abs(fs, src)).value;
      r.Ok? ==>
        && (forall rel :: IsFileAt(n, rel) && rel != [] && IsChartName(rel[|rel| - 1]) ==>
              Get(fs'.root, d + [rel[|rel| - 1]]).Some?)
        && (forall name :: name in ChartNames(files) && Get(fs.root, d + [name]).None? ==>
              Get(fs'.root, d + [name]) == Get(fs.root, Abs(fs, files[FirstChart(files, name)])))
        && r.value == |FreeNames(fs.root, d, files)|
  {
    WalkedFiles(fs, src, files);
    WalkedChartNames(fs, src, files);
    CopyFromTakes(fs, files, dest, 0);
    CopyFromCount(fs, files, dest, 0);
    var d := Abs(fs, dest);
    forall name | name in ChartNames(files) && Get(fs.root, d + [name]).None?
      ensures CopyFrom(fs, files, dest, 0).0.Ok? ==>
        Get(CopyFrom(fs, files, dest, 0).1.root, d + [name]) == Get(fs.root, Abs(fs, files[FirstChart(files, name)]))
    {
      CopyFromContents(fs, files, dest, 0, name);
    }
  }
}
