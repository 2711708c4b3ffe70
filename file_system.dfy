/**
  An abstract filesystem for `os.makedirs`, `os.path.exists`, `shutil.move`
  and `shutil.copy2`, as the sorter uses them.

  A path is the sequence of its components (`os.path.join(a, b)` is `a + [b]`);
  the state maps every file to its contents and records the set of
  directories. `FsState` with the functions `After…` is the specification of
  each operation; the class `FileSystem` is the mutable filesystem the
  sorter works on, and its methods are proved to behave as those functions say.
 */
module FileSystemModel {

  type Path = seq<string>
  type Content = seq<bv8>

  datatype FsState = FsState(files: map<Path, Content>, dirs: set<Path>)

  /** `os.path.exists`: a file or a directory. */
  predicate Exists(st: FsState, p: Path) {
    p in st.files || p in st.dirs
  }

  /** Every proper non-empty prefix of `p` is a directory. */
  ghost predicate ParentsAreDirs(p: Path, dirs: set<Path>) {
    forall i :: 1 <= i < |p| ==> p[..i] in dirs
  }

  /**
    A well-formed tree: the empty path names nothing, no path is both a file
    and a directory, and every file and directory sits inside directories.
   */
  ghost predicate Valid(st: FsState) {
    && [] !in st.files && [] !in st.dirs
    && st.files.Keys !! st.dirs
    && (forall p :: p in st.files ==> ParentsAreDirs(p, st.dirs))
    && (forall p :: p in st.dirs ==> ParentsAreDirs(p, st.dirs))
  }

  /** The directory `p` would be created in (the empty path for a top-level entry). */
  function Parent(p: Path): Path
    requires p != []
  {
    p[..|p| - 1]
  }

  /** `p` can be created: it is non-empty and its parent is a directory, or it has none. */
  predicate Placeable(st: FsState, p: Path) {
    p != [] && (|p| == 1 || Parent(p) in st.dirs)
  }

  /** The result of an operation: whether it succeeded (did not raise) and the state after it. */
  datatype OpResult = OpResult(ok: bool, st: FsState)

  /** The directories `os.makedirs(p)` ends up with: `p` and every non-empty prefix of it. */
  function Prefixes(p: Path): set<Path> {
    set i | 1 <= i <= |p| :: p[..i]
  }

  /** No non-empty prefix of `p`, `p` included, is a file. */
  predicate NoFileOnPath(st: FsState, p: Path) {
    forall i :: 1 <= i <= |p| ==> p[..i] !in st.files
  }

  /**
    `os.makedirs(p, exist_ok=True)`: creates `p` and the missing directories
    above it; raises when `p` is empty or a file sits on its path.
   */
  function AfterMakeDirs(st: FsState, p: Path): (r: OpResult)
    ensures r.ok <==> p != [] && NoFileOnPath(st, p)
    ensures r.st.files == st.files && st.dirs <= r.st.dirs
    ensures r.ok ==> p in r.st.dirs && forall q :: q in r.st.dirs - st.dirs ==> q in Prefixes(p)
    ensures !r.ok ==> r.st == st
    ensures Valid(st) ==> Valid(r.st)
  {
    if p != [] && NoFileOnPath(st, p) then
      var st' := FsState(st.files, st.dirs + Prefixes(p));
      assert p == p[..|p|];
      assert Valid(st) ==> Valid(st') by {
        if Valid(st) {
          forall q | q in Prefixes(p) ensures ParentsAreDirs(q, st'.dirs) {
            var n :| 1 <= n <= |p| && q == p[..n];
            forall i | 1 <= i < |q| ensures q[..i] in st'.dirs {
              assert q[..i] == p[..i];
            }
          }
        }
      }
      OpResult(true, st')
    else
      OpResult(false, st)
  }

  /** Creating a directory that already exists changes nothing (`exist_ok=True`). */
  lemma MakeDirsExisting(st: FsState, p: Path)
    requires Valid(st) && p in st.dirs
    ensures AfterMakeDirs(st, p) == OpResult(true, st)
  {
    assert p != [];
    forall q | q in Prefixes(p) ensures q in st.dirs {
      var n :| 1 <= n <= |p| && q == p[..n];
      if n < |p| {
        assert ParentsAreDirs(p, st.dirs);
      } else {
        assert q == p;
      }
    }
    forall i | 1 <= i <= |p| ensures p[..i] !in st.files {
      assert p[..i] in Prefixes(p);
    }
    assert st.dirs + Prefixes(p) == st.dirs;
  }

  /** `os.makedirs(p, exist_ok=True)` is idempotent. */
  lemma MakeDirsIdempotent(st: FsState, p: Path)
    requires Valid(st)
    ensures AfterMakeDirs(AfterMakeDirs(st, p).st, p) == AfterMakeDirs(st, p)
  {
    var r := AfterMakeDirs(st, p);
    if r.ok {
      MakeDirsExisting(r.st, p);
    }
  }

  /**
    `shutil.move(src, dst)` onto a free path whose parent directory exists,
    the only way the sorter calls it; anything else is reported as a failure.
   */
  function AfterMove(st: FsState, src: Path, dst: Path): (r: OpResult)
    ensures r.ok <==> src in st.files && !Exists(st, dst) && Placeable(st, dst)
    ensures r.ok ==> r.st.dirs == st.dirs && src !in r.st.files && dst in r.st.files && r.st.files[dst] == st.files[src]
    ensures r.ok ==> forall q :: q != src && q != dst ==> (q in r.st.files <==> q in st.files)
    ensures r.ok ==> forall q :: q in st.files && q != src && q != dst ==> r.st.files[q] == st.files[q]
    ensures !r.ok ==> r.st == st
    ensures Valid(st) ==> Valid(r.st)
  {
    if src in st.files && !Exists(st, dst) && Placeable(st, dst) then
      var st' := FsState((st.files - {src})[dst := st.files[src]], st.dirs);
      assert Valid(st) ==> ParentsAreDirs(dst, st.dirs) by {
        if Valid(st) && |dst| > 1 {
          assert ParentsAreDirs(Parent(dst), st.dirs);
          forall i | 1 <= i < |dst| ensures dst[..i] in st.dirs {
            if i < |dst| - 1 {
              assert dst[..i] == Parent(dst)[..i];
            }
          }
        }
      }
      OpResult(true, st')
    else
      OpResult(false, st)
  }

  /** Where `shutil.copy2(src, dst)` writes: inside `dst` when `dst` is a directory. */
  function CopyTarget(st: FsState, src: Path, dst: Path): Path {
    if dst in st.dirs && src != [] then dst + [src[|src| - 1]] else dst
  }

  /**
    `shutil.copy2(src, dst)`: writes the contents of `src` to the copy target,
    replacing a file already there; raises when `src` is not a file, when the
    target is `src` itself or a directory, or when its parent does not exist.
   */
  function AfterCopy2(st: FsState, src: Path, dst: Path): (r: OpResult)
    ensures var t := CopyTarget(st, src, dst);
      r.ok <==> src in st.files && t != src && t !in st.dirs && Placeable(st, t)
    ensures r.ok ==> r.st == FsState(st.files[CopyTarget(st, src, dst) := st.files[src]], st.dirs)
    ensures !r.ok ==> r.st == st
    ensures Valid(st) ==> Valid(r.st)
  {
    var t := CopyTarget(st, src, dst);
    if src in st.files && t != src && t !in st.dirs && Placeable(st, t) then
      var st' := FsState(st.files[t := st.files[src]], st.dirs);
      assert Valid(st) ==> ParentsAreDirs(t, st.dirs) by {
        if Valid(st) && |t| > 1 {
          assert ParentsAreDirs(Parent(t), st.dirs);
          forall i | 1 <= i < |t| ensures t[..i] in st.dirs {
            if i < |t| - 1 {
              assert t[..i] == Parent(t)[..i];
            }
          }
        }
      }
      OpResult(true, st')
    else
      OpResult(false, st)
  }

  /** The names present in directory `dir`: what `os.path.exists(os.path.join(dir, name))` accepts. */
  function NamesIn(st: FsState, dir: Path): (names: set<string>)
    ensures forall n :: n in names <==> Exists(st, dir + [n])
  {
    var names := set p | p in st.files.Keys + st.dirs && |p| == |dir| + 1 && p[..|dir|] == dir :: p[|dir|];
    assert forall n :: Exists(st, dir + [n]) ==> n in names by {
      forall n | Exists(st, dir + [n]) ensures n in names {
        var p := dir + [n];
        assert p[..|dir|] == dir && p[|dir|] == n;
      }
    }
    assert forall n :: n in names ==> Exists(st, dir + [n]) by {
      forall n | n in names ensures Exists(st, dir + [n]) {
        var p :| p in st.files.Keys + st.dirs && |p| == |dir| + 1 && p[..|dir|] == dir && p[|dir|] == n;
        assert p == dir + [n];
      }
    }
    names
  }

  /** No name occurs twice. */
  predicate Distinct<T(==)>(s: seq<T>) {
    forall i, j :: 0 <= i < j < |s| ==> s[i] != s[j]
  }

  /** `names` is what `os.listdir(dir)` may return: every entry of `dir` once, in some order. */
  ghost predicate IsListing(st: FsState, dir: Path, names: seq<string>) {
    Distinct(names) && forall n :: n in names <==> Exists(st, dir + [n])
  }

  /** The filesystem the sorter works on. */
  class FileSystem {
    var files: map<Path, Content>
    var dirs: set<Path>

    function State(): FsState
      reads this
    {
      FsState(files, dirs)
    }

    constructor (st: FsState)
      ensures State() == st
    {
      files, dirs := st.files, st.dirs;
    }

    /** `os.path.exists(p)`. */
    method PathExists(p: Path) returns (b: bool)
      ensures b == Exists(State(), p)
    {
      b := p in files || p in dirs;
    }

    /** `os.path.isdir(p)`. */
    method IsDir(p: Path) returns (b: bool)
      ensures b == (p in State().dirs)
    {
      b := p in dirs;
    }

    /** `os.listdir(dir)`: the entries of `dir` in an order the filesystem chooses. */
    method ListDir(dir: Path) returns (names: seq<string>)
      ensures IsListing(State(), dir, names)
    {
      var left := NamesIn(State(), dir);
      names := [];
      while left != {}
        invariant Distinct(names)
        invariant forall n :: n in names ==> n !in left
        invariant forall n :: n in NamesIn(State(), dir) <==> n in names || n in left
        decreases left
      {
        var n :| n in left;
        names := names + [n];
        left := left - {n};
      }
    }

    /** `os.makedirs(p, exist_ok=True)`; `ok` is false where it raises. */
    method MakeDirs(p: Path) returns (ok: bool)
      modifies this
      ensures OpResult(ok, State()) == AfterMakeDirs(old(State()), p)
    {
      ok := p != [] && forall i :: 1 <= i <= |p| ==> p[..i] !in files;
      if ok {
        dirs := dirs + Prefixes(p);
      }
    }

    /** `shutil.move(src, dst)`; `ok` is false where it raises. */
    method Move(src: Path, dst: Path) returns (ok: bool)
      modifies this
      ensures OpResult(ok, State()) == AfterMove(old(State()), src, dst)
    {
      ok := src in files && dst !in files && dst !in dirs && dst != [] && (|dst| == 1 || dst[..|dst| - 1] in dirs);
      if ok {
        files := (files - {src})[dst := files[src]];
      }
    }

    /** `shutil.copy2(src, dst)`; `ok` is false where it raises. */
    method Copy2(src: Path, dst: Path) returns (ok: bool)
      modifies this
      ensures OpResult(ok, State()) == AfterCopy2(old(State()), src, dst)
    {
      var target := dst;
      if dst in dirs && src != [] {
        target := dst + [src[|src| - 1]];
      }
      ok := src in files && target != src && target !in dirs && target != [] && (|target| == 1 || target[..|target| - 1] in dirs);
      if ok {
        files := files[target := files[src]];
      }
    }
  }
}
