/**
  `copy_to_destination`: every recognised screenshot of the source folder is
  copied to `<date folder>/<zone>/<character>/` inside the destination folder,
  under a name no file or folder there has yet.

  `CopyEntry` and `CopyRun` say what one entry and the whole loop do. The run
  lemma proves that the copy never changes or removes a file that existed
  before, adds exactly one new file per recognised screenshot, in its route
  folder and with the screenshot's contents, and raises only where a route
  folder cannot be made or an entry is not a file.
 */
module CopyDestination {
  import opened Wrappers
  import opened FilenameParser
  import opened CollisionResolver
  import opened FileSystemModel
  import opened Routing

  /** The body of the loop of lines 175-198 for the entry `f` of `src`. */
  function CopyEntry(st: FsState, dest: Path, src: Path, f: string): (r: Step)
    ensures Valid(st) ==> Valid(r.st)
    ensures st.dirs <= r.st.dirs
  {
    if !IsImageName(f) then Step(true, st, [], [])
    else match Recognize(f)
      case None => Step(true, st, [SkippedUnrecognized(f)], [])
      case Some(info) => CopyRouted(st, dest, src, f, info)
  }

  /** Lines 183-198: copy the recognised screenshot `f` into its route folder under a free name. */
  function CopyRouted(st: FsState, dest: Path, src: Path, f: string, info: ScreenshotInfo): (r: Step)
    ensures Valid(st) ==> Valid(r.st)
    ensures st.dirs <= r.st.dirs
  {
    var dir := RouteDir(dest, info);
    var made := AfterMakeDirs(st, dir);
    if !made.ok then Step(false, st, [], [])
    else
      var name := FreeName(NamesIn(made.st, dir), f);
      var copied := AfterCopy2(made.st, src + [f], dir + [name]);
      if !copied.ok then Step(false, made.st, [], [])
      else Step(true, copied.st, [Copied(f, info)], [dir + [name]])
  }

  /** The loop over `names`, stopping at the first entry whose processing raised. */
  function CopyRun(st: FsState, dest: Path, src: Path, names: seq<string>): (r: Step)
    ensures Valid(st) ==> Valid(r.st)
    ensures st.dirs <= r.st.dirs
    decreases |names|
  {
    if names == [] then Step(true, st, [], [])
    else
      var r := CopyRun(st, dest, src, names[..|names| - 1]);
      if !r.ok then r
      else
        var e := CopyEntry(r.st, dest, src, names[|names| - 1]);
        Step(e.ok, e.st, r.log + e.log, r.placed + e.placed)
  }

  // ---------------------------------------------------------------------
  // The reference description of a copy run

  /** The recognised screenshots of `names`, in order, with their routes. */
  function Recognised(names: seq<string>): seq<(string, ScreenshotInfo)>
    decreases |names|
  {
    if names == [] then [] else Recognised(names[..|names| - 1]) + Routed(names[|names| - 1])
  }

  /** Every entry of `Recognised(names)` is a recognised name of `names` with its route. */
  lemma {:induction false} RecognisedSound(names: seq<string>)
    ensures forall i :: 0 <= i < |Recognised(names)| ==>
      Recognised(names)[i].0 in names && Recognize(Recognised(names)[i].0) == Some(Recognised(names)[i].1)
    decreases |names|
  {
    if names != [] {
      var init, last := names[..|names| - 1], names[|names| - 1];
      RecognisedSound(init);
      var pre, r := Recognised(init), Recognised(names);
      forall i | 0 <= i < |r|
        ensures r[i].0 in names && Recognize(r[i].0) == Some(r[i].1)
      {
        if i < |pre| {
          assert r[i] == pre[i] && pre[i].0 in init;
        } else {
          assert r[i] == Routed(last)[i - |pre|];
        }
      }
    }
  }

  /** Every recognised name of `names` is in `Recognised(names)`, with its route. */
  lemma {:induction false} RecognisedComplete(names: seq<string>)
    ensures forall f :: f in names && Recognize(f).Some? ==> (f, Recognize(f).value) in Recognised(names)
    decreases |names|
  {
    if names != [] {
      var init, last := names[..|names| - 1], names[|names| - 1];
      RecognisedComplete(init);
      assert names == init + [last];
      assert Recognised(names) == Recognised(init) + Routed(last);
    }
  }

  /** The entry `f` with its route, if it is a recognised screenshot. */
  function Routed(f: string): (r: seq<(string, ScreenshotInfo)>)
    ensures Recognize(f).None? ==> r == []
    ensures Recognize(f).Some? ==> r == [(f, Recognize(f).value)]
  {
    var o := Recognize(f);
    if o.None? then [] else [(f, o.value)]
  }

  /** What the loop logs for the entry `f`; it does not depend on the filesystem. */
  function CopyLogOf(f: string): seq<LogEntry> {
    if !IsImageName(f) then []
    else match Recognize(f)
      case None => [SkippedUnrecognized(f)]
      case Some(info) => [Copied(f, info)]
  }

  /** The log of a run over `names` in which nothing raised. */
  function ExpectedCopyLog(names: seq<string>): seq<LogEntry>
    decreases |names|
  {
    if names == [] then [] else ExpectedCopyLog(names[..|names| - 1]) + CopyLogOf(names[|names| - 1])
  }

  /** Copying the entry `f` does not raise: it is not routed, or its route folder can be made and it is a file. */
  predicate CopyReady(st0: FsState, dest: Path, src: Path, f: string) {
    match Recognize(f)
    case None => true
    case Some(info) => NoFileOnPath(st0, RouteDir(dest, info)) && src + [f] in st0.files
  }

  /**
    What any prefix of a run keeps, even one that raised: the tree stays
    valid, every file of `st0` is still there unchanged, and the only files
    added are the `placed` ones, all distinct, all four levels below `dest`
    and all on paths that did not exist in `st0`.
   */
  ghost predicate CopyFrame(st0: FsState, dest: Path, st: FsState, placed: seq<Path>) {
    && Valid(st)
    && st0.dirs <= st.dirs
    && (forall p :: p in st0.files ==> p in st.files && st.files[p] == st0.files[p])
    && (forall p :: p in st.files ==> p in st0.files || p in placed)
    && Distinct(placed)
    && (forall i :: 0 <= i < |placed| ==> !Exists(st0, placed[i]) && placed[i] in st.files && |placed[i]| == |dest| + 4)
  }

  /** `p` is a copy of the screenshot `f` routed by `info`: in its route folder, under `f` or a numbered variant. */
  ghost predicate IsCopyPath(dest: Path, f: string, info: ScreenshotInfo, p: Path) {
    |p| == |dest| + 4 && p[..|dest| + 3] == RouteDir(dest, info) &&
    (p[|dest| + 3] == f || exists k :: k >= 1 && p[|dest| + 3] == Numbered(f, k))
  }

  /**
    `placed` holds one copy per entry of `rec`, in order, each at a copy path
    of that screenshot and holding its contents in `st0`.
   */
  ghost predicate PlacedAt(st0: FsState, dest: Path, src: Path, rec: seq<(string, ScreenshotInfo)>, st: FsState, placed: seq<Path>) {
    && |placed| == |rec|
    && forall i :: 0 <= i < |placed| ==>
         && IsCopyPath(dest, rec[i].0, rec[i].1, placed[i])
         && src + [rec[i].0] in st0.files && placed[i] in st.files
         && st.files[placed[i]] == st0.files[src + [rec[i].0]]
  }

  /** A run over `names` that did not raise has placed one copy per recognised screenshot. */
  ghost predicate CopyPlacement(st0: FsState, dest: Path, src: Path, names: seq<string>, st: FsState, placed: seq<Path>) {
    PlacedAt(st0, dest, src, Recognised(names), st, placed)
  }

  /** Part way through a run, a route folder can be made exactly when it could in `st0`. */
  lemma CopyRouteAgrees(st0: FsState, dest: Path, st: FsState, placed: seq<Path>, info: ScreenshotInfo)
    requires CopyFrame(st0, dest, st, placed)
    ensures NoFileOnPath(st, RouteDir(dest, info)) == NoFileOnPath(st0, RouteDir(dest, info))
  {
    var dir := RouteDir(dest, info);
    forall i | 1 <= i <= |dir| ensures dir[..i] in st.files <==> dir[..i] in st0.files {
      assert forall j :: 0 <= j < |placed| ==> placed[j] != dir[..i];
    }
  }

  /** Part way through a run, an entry of `src` that existed in `st0` is a file exactly when it was one then. */
  lemma CopySourceAgrees(st0: FsState, dest: Path, src: Path, st: FsState, placed: seq<Path>, f: string)
    requires Valid(st0) && CopyFrame(st0, dest, st, placed) && Exists(st0, src + [f])
    ensures src + [f] in st.files <==> src + [f] in st0.files
    ensures src + [f] in st0.files ==> st.files[src + [f]] == st0.files[src + [f]]
  {
    assert forall j :: 0 <= j < |placed| ==> placed[j] != src + [f];
  }

  /** Part way through a run, the copy of a recognised screenshot raises exactly when it would have in `st0`, and keeps the frame. */
  lemma CopyRoutedStep(st0: FsState, dest: Path, src: Path, st: FsState, placed: seq<Path>, f: string, info: ScreenshotInfo)
    requires Valid(st0) && CopyFrame(st0, dest, st, placed)
    requires Exists(st0, src + [f])
    ensures var e := CopyRouted(st, dest, src, f, info);
      && e.ok == (NoFileOnPath(st0, RouteDir(dest, info)) && src + [f] in st0.files)
      && CopyFrame(st0, dest, e.st, placed + e.placed)
      && (!e.ok ==> e.placed == [])
      && (e.ok ==> e.log == [Copied(f, info)] && |e.placed| == 1)
  {
    var dir := RouteDir(dest, info);
    CopyRouteAgrees(st0, dest, st, placed, info);
    CopySourceAgrees(st0, dest, src, st, placed, f);
    var made := AfterMakeDirs(st, dir);
    if made.ok {
      var t := dir + [FreeName(NamesIn(made.st, dir), f)];
      assert !Exists(made.st, t);
      assert CopyTarget(made.st, src + [f], t) == t;
      assert Parent(t) == dir;
      assert CopyFrame(st0, dest, made.st, placed);
    }
  }

  /** The copy of a recognised screenshot, when it does not raise, lands on a copy path with the screenshot's contents. */
  lemma CopyRoutedPlaced(st0: FsState, dest: Path, src: Path, st: FsState, placed: seq<Path>, f: string, info: ScreenshotInfo)
    requires Valid(st0) && CopyFrame(st0, dest, st, placed)
    requires Exists(st0, src + [f])
    ensures var e := CopyRouted(st, dest, src, f, info);
      && (e.ok ==> PlacedAt(st0, dest, src, [(f, info)], e.st, e.placed))
      && (e.ok ==> forall i :: 0 <= i < |placed| ==> placed[i] in e.st.files && e.st.files[placed[i]] == st.files[placed[i]])
  {
    var dir := RouteDir(dest, info);
    CopySourceAgrees(st0, dest, src, st, placed, f);
    var made := AfterMakeDirs(st, dir);
    if made.ok {
      var name := FreeName(NamesIn(made.st, dir), f);
      var t := dir + [name];
      assert !Exists(made.st, t);
      assert CopyTarget(made.st, src + [f], t) == t;
      var copied := AfterCopy2(made.st, src + [f], t);
      if copied.ok {
        assert t[..|dest| + 3] == dir && t[|dest| + 3] == name;
        assert IsCopyPath(dest, f, info, t);
        assert forall i :: 0 <= i < |placed| ==> placed[i] != t;
      }
    }
  }

  /** Copying an entry of `src`, part way through a run. */
  lemma CopyEntryStep(st0: FsState, dest: Path, src: Path, st: FsState, placed: seq<Path>, f: string)
    requires Valid(st0) && CopyFrame(st0, dest, st, placed)
    requires Exists(st0, src + [f])
    ensures var e := CopyEntry(st, dest, src, f);
      && e.ok == CopyReady(st0, dest, src, f)
      && CopyFrame(st0, dest, e.st, placed + e.placed)
      && (!e.ok ==> e.placed == [])
      && (e.ok ==> e.log == CopyLogOf(f))
      && (e.ok ==> PlacedAt(st0, dest, src, Routed(f), e.st, e.placed))
      && (e.ok ==> forall i :: 0 <= i < |placed| ==> placed[i] in e.st.files && e.st.files[placed[i]] == st.files[placed[i]])
  {
    if IsImageName(f) && Recognize(f).Some? {
      CopyRoutedStep(st0, dest, src, st, placed, f, Recognize(f).value);
      CopyRoutedPlaced(st0, dest, src, st, placed, f, Recognize(f).value);
      assert Routed(f) == [(f, Recognize(f).value)];
    } else {
      assert placed + [] == placed;
    }
  }

  /** Appending the copies of one more entry to those a run has placed so far. */
  lemma PlacedAtExtend(st0: FsState, dest: Path, src: Path, rec: seq<(string, ScreenshotInfo)>, extra: seq<(string, ScreenshotInfo)>,
                       st: FsState, placed: seq<Path>, st': FsState, more: seq<Path>)
    requires PlacedAt(st0, dest, src, rec, st, placed)
    requires forall i :: 0 <= i < |placed| ==> placed[i] in st'.files && st'.files[placed[i]] == st.files[placed[i]]
    requires PlacedAt(st0, dest, src, extra, st', more)
    ensures PlacedAt(st0, dest, src, rec + extra, st', placed + more)
  {
  }

  /** The copy loop raises exactly when some entry is not ready, and always keeps the frame. */
  lemma {:induction false} CopyRunFrame(st0: FsState, dest: Path, src: Path, names: seq<string>)
    requires Valid(st0)
    requires forall f :: f in names ==> Exists(st0, src + [f])
    ensures var r := CopyRun(st0, dest, src, names);
      && (r.ok <==> forall f :: f in names ==> CopyReady(st0, dest, src, f))
      && CopyFrame(st0, dest, r.st, r.placed)
    decreases |names|
  {
    if names == [] {
      assert CopyFrame(st0, dest, st0, []);
    } else {
      var pre := names[..|names| - 1];
      var f := names[|names| - 1];
      assert names == pre + [f];
      assert forall g :: g in pre ==> g in names;
      CopyRunFrame(st0, dest, src, pre);
      var r := CopyRun(st0, dest, src, pre);
      if r.ok {
        CopyEntryStep(st0, dest, src, r.st, r.placed, f);
      } else {
        var g :| g in pre && !CopyReady(st0, dest, src, g);
        assert g in names;
      }
    }
  }

  /** Copying a screenshot adds only folders below a date folder of `dest`: those of its route folder. */
  lemma CopyRoutedDirs(st: FsState, dest: Path, src: Path, f: string, info: ScreenshotInfo)
    requires Valid(st) && dest in st.dirs && FitsMask(info.dateFolder, DateFolderMask)
    ensures DirsGrownBelowDates(st, dest, CopyRouted(st, dest, src, f, info).st)
  {
    var made := AfterMakeDirs(st, RouteDir(dest, info));
    forall q | q in made.st.dirs && q !in st.dirs ensures UnderDateFolder(dest, q) {
      RouteDirsUnderDateFolder(st, dest, info, q);
    }
  }

  /** One pass of the loop adds only folders below a date folder of `dest`. */
  lemma CopyEntryDirs(st: FsState, dest: Path, src: Path, f: string)
    requires Valid(st) && dest in st.dirs
    ensures DirsGrownBelowDates(st, dest, CopyEntry(st, dest, src, f).st)
  {
    var o := Recognize(f);
    if IsImageName(f) && o.Some? {
      CopyRoutedDirs(st, dest, src, f, o.value);
    }
  }

  /**
    A copy loop, even one that raised, adds only folders below a date folder
    of `dest`: it never creates a folder anywhere else, in particular not in
    a source folder outside `dest`.
   */
  lemma {:induction false} CopyRunDirs(st0: FsState, dest: Path, src: Path, names: seq<string>)
    requires Valid(st0) && dest in st0.dirs
    ensures DirsGrownBelowDates(st0, dest, CopyRun(st0, dest, src, names).st)
    decreases |names|
  {
    if names != [] {
      var pre := names[..|names| - 1];
      CopyRunDirs(st0, dest, src, pre);
      var r := CopyRun(st0, dest, src, pre);
      if r.ok {
        CopyEntryDirs(r.st, dest, src, names[|names| - 1]);
      }
    }
  }

  /** A copy loop that did not raise logs each entry as `CopyLogOf` says. */
  lemma {:induction false} CopyRunLog(st0: FsState, dest: Path, src: Path, names: seq<string>)
    requires Valid(st0)
    requires forall f :: f in names ==> Exists(st0, src + [f])
    ensures var r := CopyRun(st0, dest, src, names);
      r.ok ==> r.log == ExpectedCopyLog(names)
    decreases |names|
  {
    if names != [] {
      var pre := names[..|names| - 1];
      var f := names[|names| - 1];
      assert forall g :: g in pre ==> g in names;
      CopyRunLog(st0, dest, src, pre);
      CopyRunFrame(st0, dest, src, pre);
      var r := CopyRun(st0, dest, src, pre);
      if r.ok {
        CopyEntryStep(st0, dest, src, r.st, r.placed, f);
      }
    }
  }

  /** A copy loop that did not raise has placed one copy per recognised screenshot. */
  lemma {:induction false} CopyRunPlacement(st0: FsState, dest: Path, src: Path, names: seq<string>)
    requires Valid(st0)
    requires forall f :: f in names ==> Exists(st0, src + [f])
    ensures var r := CopyRun(st0, dest, src, names);
      r.ok ==> CopyPlacement(st0, dest, src, names, r.st, r.placed)
    decreases |names|
  {
    if names != [] {
      var pre := names[..|names| - 1];
      var f := names[|names| - 1];
      assert forall g :: g in pre ==> g in names;
      CopyRunPlacement(st0, dest, src, pre);
      CopyRunFrame(st0, dest, src, pre);
      var r := CopyRun(st0, dest, src, pre);
      if r.ok {
        CopyEntryStep(st0, dest, src, r.st, r.placed, f);
        var e := CopyEntry(r.st, dest, src, f);
        if e.ok {
          assert Recognised(names) == Recognised(pre) + Routed(f);
          PlacedAtExtend(st0, dest, src, Recognised(pre), Routed(f), r.st, r.placed, e.st, e.placed);
        }
      }
    }
  }

  /** Once an entry raised, the rest of the listing is not looked at: the run ends as its prefix did. */
  lemma {:induction false} CopyRunStops(st: FsState, dest: Path, src: Path, names: seq<string>, k: nat)
    requires k <= |names| && !CopyRun(st, dest, src, names[..k]).ok
    ensures CopyRun(st, dest, src, names) == CopyRun(st, dest, src, names[..k])
    decreases |names|
  {
    if |names| == k {
      assert names[..k] == names;
    } else {
      var pre := names[..|names| - 1];
      assert pre[..k] == names[..k];
      CopyRunStops(st, dest, src, pre, k);
    }
  }

  /** One more entry of a run that has not raised so far. */
  lemma CopyRunExtend(st: FsState, dest: Path, src: Path, names: seq<string>, i: nat)
    requires i < |names| && CopyRun(st, dest, src, names[..i]).ok
    ensures var r := CopyRun(st, dest, src, names[..i]);
      var e := CopyEntry(r.st, dest, src, names[i]);
      CopyRun(st, dest, src, names[..i + 1]) == Step(e.ok, e.st, r.log + e.log, r.placed + e.placed)
  {
    assert names[..i + 1][..i] == names[..i];
  }
}
