/**
  `sort_and_archive_in_source`: every recognised screenshot of the source
  folder is moved to `<date folder>/<zone>/<character>/` inside the source
  folder and a copy is kept in `Archive/`.

  `SortEntry`, `SortRun` and `SortAndArchive` say what one entry, a sequence of
  entries and the whole call do to the filesystem and the log. `OutcomeOf`
  then classifies every entry against the state the loop starts from, and the
  run lemmas prove that the run behaves as that classification says, whatever
  order the entries are listed in.
 */
module MoveArchive {
  import opened Wrappers
  import opened FilenameParser
  import opened FileSystemModel
  import opened Routing

  /** The body of the loop of lines 155-172 for the entry `f` of `src`. */
  function SortEntry(st: FsState, src: Path, f: string): (r: Step)
    ensures Valid(st) ==> Valid(r.st)
    ensures st.dirs <= r.st.dirs
  {
    if !IsImageName(f) then Step(true, st, [], [])
    else match Recognize(f)
      case None => Step(true, st, [SkippedUnrecognized(f)], [])
      case Some(info) => RouteAndArchive(st, src, f, info)
  }

  /** Lines 163-172: route the recognised screenshot `f` and keep a copy in the archive. */
  function RouteAndArchive(st: FsState, src: Path, f: string, info: ScreenshotInfo): (r: Step)
    ensures Valid(st) ==> Valid(r.st)
    ensures st.dirs <= r.st.dirs
  {
    var dir := RouteDir(src, info);
    var made := AfterMakeDirs(st, dir);
    if !made.ok then Step(false, st, [], [])
    else if Exists(made.st, dir + [f]) then Step(true, made.st, [SkippedExists(f)], [])
    else
      var moved := AfterMove(made.st, src + [f], dir + [f]);
      if !moved.ok then Step(false, made.st, [], [])
      else
        var archived := AfterCopy2(moved.st, dir + [f], src + [ArchiveName, f]);
        if !archived.ok then Step(false, moved.st, [], [])
        else Step(true, archived.st, [Moved(f, info)], [dir + [f]])
  }

  /** The loop over `names`, stopping at the first entry whose processing raised. */
  function SortRun(st: FsState, src: Path, names: seq<string>): (r: Step)
    ensures Valid(st) ==> Valid(r.st)
    ensures st.dirs <= r.st.dirs
    decreases |names|
  {
    if names == [] then Step(true, st, [], [])
    else
      var r := SortRun(st, src, names[..|names| - 1]);
      if !r.ok then r
      else
        var e := SortEntry(r.st, src, names[|names| - 1]);
        Step(e.ok, e.st, r.log + e.log, r.placed + e.placed)
  }

  /**
    Lines 151-172: create `src/Archive`, then sort the entries `listing`
    that `os.listdir` returned afterwards.
   */
  function SortAndArchive(st: FsState, src: Path, listing: seq<string>): (r: Step)
    ensures Valid(st) ==> Valid(r.st)
    ensures AfterMakeDirs(st, src + [ArchiveName]).ok ==> src + [ArchiveName] in r.st.dirs
    ensures !AfterMakeDirs(st, src + [ArchiveName]).ok ==> r == Step(false, st, [], [])
  {
    var made := AfterMakeDirs(st, src + [ArchiveName]);
    if !made.ok then Step(false, st, [], []) else SortRun(made.st, src, listing)
  }

  // ---------------------------------------------------------------------
  // What happens to each entry, judged against the state the loop starts in

  /** How the loop treats one entry of the source folder. */
  datatype Outcome =
    | NotImage                      // no image extension: passed over silently
    | Unrecognized                  // logged as an unrecognised format
    | RouteBlocked                  // a file sits where a route folder must go: makedirs raises
    | AlreadySorted(info: ScreenshotInfo)  // the target exists: logged and left in place
    | ArchiveBlocked(info: ScreenshotInfo) // moved, but the archive copy raises
    | Sorted(info: ScreenshotInfo)  // moved to its route folder and archived
  {
    predicate Aborts() {
      RouteBlocked? || ArchiveBlocked?
    }
  }

  /** Where the screenshot `f` is moved to. */
  function SortTarget(src: Path, info: ScreenshotInfo, f: string): Path {
    RouteDir(src, info) + [f]
  }

  /** Where `shutil.copy2` puts the archive copy of `f`: inside `Archive/f` when that is a folder. */
  function ArchivePath(st0: FsState, src: Path, f: string): Path {
    if src + [ArchiveName, f] in st0.dirs then src + [ArchiveName, f, f] else src + [ArchiveName, f]
  }

  /** The outcome for the entry `f`, decided on the state `st0` the loop starts in. */
  function OutcomeOf(st0: FsState, src: Path, f: string): Outcome {
    if !IsImageName(f) then NotImage
    else match Recognize(f)
      case None => Unrecognized
      case Some(info) => RouteOutcome(st0, src, f, info)
  }

  /** The outcome for the recognised screenshot `f` routed by `info`. */
  function RouteOutcome(st0: FsState, src: Path, f: string, info: ScreenshotInfo): Outcome {
    if !NoFileOnPath(st0, RouteDir(src, info)) then RouteBlocked
    else if Exists(st0, SortTarget(src, info, f)) then AlreadySorted(info)
    else if ArchivePath(st0, src, f) in st0.dirs then ArchiveBlocked(info)
    else Sorted(info)
  }

  /** What the loop logs for an entry with outcome `o`. */
  function OutcomeLog(o: Outcome, f: string): seq<LogEntry> {
    match o
    case Unrecognized => [SkippedUnrecognized(f)]
    case AlreadySorted(_) => [SkippedExists(f)]
    case Sorted(info) => [Moved(f, info)]
    case _ => []
  }

  /** The log of a run over `names` in which nothing raised. */
  function ExpectedLog(st0: FsState, src: Path, names: seq<string>): seq<LogEntry>
    decreases |names|
  {
    if names == [] then []
    else ExpectedLog(st0, src, names[..|names| - 1]) + OutcomeLog(OutcomeOf(st0, src, names[|names| - 1]), names[|names| - 1])
  }

  /**
    The contents at `p` once the screenshots `moved` (with where they were
    routed) have been sorted: each has left the source folder and sits at its
    target and at its archive path; every other path is as it was in `st0`.
   */
  function ExpectedFile(st0: FsState, src: Path, moved: map<string, ScreenshotInfo>, p: Path): Option<Content> {
    if p != [] && p[|p| - 1] in moved then
      var g := p[|p| - 1];
      if p == src + [g] then None
      else if p == SortTarget(src, moved[g], g) || p == ArchivePath(st0, src, g) then Lookup(st0.files, src + [g])
      else Lookup(st0.files, p)
    else Lookup(st0.files, p)
  }

  /** The loop invariant: the state reached from `st0` once the screenshots `moved` have been sorted. */
  ghost predicate Reflects(st0: FsState, src: Path, moved: map<string, ScreenshotInfo>, st: FsState) {
    && Valid(st)
    && DirsGrownBelowDates(st0, src, st)
    && (forall g :: g in moved ==> IsImageName(g))
    && (forall p :: Lookup(st.files, p) == ExpectedFile(st0, src, moved, p))
  }

  /** What the loop needs of the state it starts in and of the listing. */
  ghost predicate RunReady(st0: FsState, src: Path, names: seq<string>) {
    && Valid(st0) && src in st0.dirs && src + [ArchiveName] in st0.dirs
    && Distinct(names)
    && (forall f :: f in names && IsImageName(f) ==> src + [f] in st0.files)
  }

  /** Before the loop nothing has been sorted. */
  lemma ReflectsInitially(st0: FsState, src: Path)
    requires Valid(st0)
    ensures Reflects(st0, src, map[], st0)
  {
  }

  /** Directories made by the loop lie below a date folder, so they are never the archive or an entry. */
  lemma ReflectsNewDirs(st0: FsState, src: Path, st: FsState)
    requires DirsGrownBelowDates(st0, src, st)
    ensures forall q :: q in st.dirs && q !in st0.dirs ==>
      |src| < |q| <= |src| + 3 && q[..|src|] == src && q[|src|] != ArchiveName && !IsImageName(q[|src|])
  {
    forall q | q in st.dirs && q !in st0.dirs
      ensures |src| < |q| <= |src| + 3 && q[..|src|] == src && q[|src|] != ArchiveName && !IsImageName(q[|src|])
    {
      UnderDateFolderIsNoEntry(src, q);
    }
  }

  /** Paths that are neither an entry of `src` nor a target nor an archive path keep their `st0` contents. */
  lemma ExpectedElsewhere(st0: FsState, src: Path, moved: map<string, ScreenshotInfo>, q: Path)
    requires q != []
    requires q != src + [q[|q| - 1]]
    requires |q| != |src| + 4
    requires |q| <= |src| || q[|src|] != ArchiveName
    ensures ExpectedFile(st0, src, moved, q) == Lookup(st0.files, q)
  {
    var g := q[|q| - 1];
    assert forall info :: |SortTarget(src, info, g)| == |src| + 4;
    assert |ArchivePath(st0, src, g)| > |src| && ArchivePath(st0, src, g)[|src|] == ArchiveName;
  }

  /** A path below a date folder is expected to hold what it held in `st0`. */
  lemma ExpectedBelowDateFolder(st0: FsState, src: Path, moved: map<string, ScreenshotInfo>, q: Path)
    requires forall g :: g in moved ==> IsImageName(g)
    requires |src| < |q| <= |src| + 3 && q[..|src|] == src
    requires q[|src|] != ArchiveName && !IsImageName(q[|src|])
    ensures ExpectedFile(st0, src, moved, q) == Lookup(st0.files, q)
  {
    var g := q[|q| - 1];
    if |q| == |src| + 1 {
      assert g == q[|src|] && g !in moved;
    } else {
      assert q != src + [g];
      ExpectedElsewhere(st0, src, moved, q);
    }
  }

  /** The paths on a route folder hold, part way through the loop, what they held in `st0`. */
  lemma RouteFilesUnchanged(st0: FsState, src: Path, moved: map<string, ScreenshotInfo>, st: FsState, info: ScreenshotInfo)
    requires Valid(st0) && src in st0.dirs && Reflects(st0, src, moved, st)
    requires FitsMask(info.dateFolder, DateFolderMask)
    ensures NoFileOnPath(st, RouteDir(src, info)) == NoFileOnPath(st0, RouteDir(src, info))
  {
    var dir := RouteDir(src, info);
    var n := |src|;
    DateFolderIsNoImageName(info.dateFolder);
    assert ParentsAreDirs(src, st0.dirs);
    forall i | 1 <= i <= n ensures dir[..i] in st0.dirs {
      assert dir[..i] == src[..i];
      assert src[..n] == src;
    }
    forall i | n < i <= |dir| ensures dir[..i] in st.files <==> dir[..i] in st0.files {
      var q := dir[..i];
      ExpectedBelowDateFolder(st0, src, moved, q);
      assert Lookup(st.files, q) == ExpectedFile(st0, src, moved, q);
    }
  }

  /** Making the route folder keeps the invariant. */
  lemma MakeRouteReflects(st0: FsState, src: Path, moved: map<string, ScreenshotInfo>, st: FsState, info: ScreenshotInfo)
    requires Valid(st0) && src in st0.dirs && Reflects(st0, src, moved, st)
    requires FitsMask(info.dateFolder, DateFolderMask)
    ensures var made := AfterMakeDirs(st, RouteDir(src, info));
      made.ok ==> Reflects(st0, src, moved, made.st)
  {
    var made := AfterMakeDirs(st, RouteDir(src, info));
    if made.ok {
      forall q | q in made.st.dirs && q !in st0.dirs ensures UnderDateFolder(src, q) {
        if q !in st.dirs {
          RouteDirsUnderDateFolder(st0, src, info, q);
        }
      }
    }
  }

  /** Whether the target of an entry not yet sorted exists does not depend on the entries before it. */
  lemma TargetUnchanged(st0: FsState, src: Path, moved: map<string, ScreenshotInfo>, st: FsState, info: ScreenshotInfo, f: string)
    requires Reflects(st0, src, moved, st) && f !in moved
    ensures Exists(st, SortTarget(src, info, f)) == Exists(st0, SortTarget(src, info, f))
  {
    var t := SortTarget(src, info, f);
    assert ExpectedFile(st0, src, moved, t) == Lookup(st0.files, t);
    assert Lookup(st.files, t) == ExpectedFile(st0, src, moved, t);
    ReflectsNewDirs(st0, src, st);
  }

  /** An entry not yet sorted is still in the source folder with its `st0` contents. */
  lemma EntryStillThere(st0: FsState, src: Path, moved: map<string, ScreenshotInfo>, st: FsState, f: string)
    requires Reflects(st0, src, moved, st) && f !in moved && src + [f] in st0.files
    ensures src + [f] in st.files && st.files[src + [f]] == st0.files[src + [f]]
  {
    assert ExpectedFile(st0, src, moved, src + [f]) == Lookup(st0.files, src + [f]);
    assert Lookup(st.files, src + [f]) == ExpectedFile(st0, src, moved, src + [f]);
  }

  /** The move of line 168 succeeds once the route folder exists and the target is free. */
  lemma MoveSucceeds(st0: FsState, src: Path, moved: map<string, ScreenshotInfo>, st: FsState, info: ScreenshotInfo, f: string)
    requires Reflects(st0, src, moved, st) && f !in moved && src + [f] in st0.files
    requires RouteDir(src, info) in st.dirs && !Exists(st, SortTarget(src, info, f))
    ensures AfterMove(st, src + [f], SortTarget(src, info, f)).ok
  {
    EntryStillThere(st0, src, moved, st, f);
    assert Parent(SortTarget(src, info, f)) == RouteDir(src, info);
  }

  /** The archive copy of line 169 lands on `ArchivePath` and fails exactly when that is a folder. */
  lemma ArchiveCopy(st0: FsState, src: Path, st: FsState, info: ScreenshotInfo, f: string)
    requires DirsGrownBelowDates(st0, src, st) && src + [ArchiveName] in st0.dirs
    requires SortTarget(src, info, f) in st.files
    ensures CopyTarget(st, SortTarget(src, info, f), src + [ArchiveName, f]) == ArchivePath(st0, src, f)
    ensures AfterCopy2(st, SortTarget(src, info, f), src + [ArchiveName, f]).ok <==> ArchivePath(st0, src, f) !in st0.dirs
  {
    var n := |src|;
    var a := src + [ArchiveName, f];
    ReflectsNewDirs(st0, src, st);
    assert a[n] == ArchiveName && (a + [f])[n] == ArchiveName;
    assert a in st.dirs <==> a in st0.dirs;
    assert a + [f] in st.dirs <==> a + [f] in st0.dirs;
    var t := ArchivePath(st0, src, f);
    assert SortTarget(src, info, f)[|SortTarget(src, info, f)| - 1] == f;
    assert CopyTarget(st, SortTarget(src, info, f), a) == t;
    assert Parent(t) == src + [ArchiveName] || Parent(t) == a;
    assert |t| < |SortTarget(src, info, f)|;
  }

  /** Sorting `f` changes the expected contents at exactly its entry, its target and its archive path. */
  lemma ExpectedAfterSorting(st0: FsState, src: Path, moved: map<string, ScreenshotInfo>, info: ScreenshotInfo, f: string, p: Path)
    requires f !in moved
    ensures ExpectedFile(st0, src, moved[f := info], p) ==
      if p == src + [f] then None
      else if p == SortTarget(src, info, f) || p == ArchivePath(st0, src, f) then Lookup(st0.files, src + [f])
      else ExpectedFile(st0, src, moved, p)
  {
    if p == [] || p[|p| - 1] != f {
      assert p != src + [f] && p != SortTarget(src, info, f) && p != ArchivePath(st0, src, f);
    }
  }

  /** Moving and archiving the screenshot `f` reaches the state expected once `f` is sorted too. */
  lemma SortedReflects(st0: FsState, src: Path, moved: map<string, ScreenshotInfo>, st: FsState, info: ScreenshotInfo, f: string)
    requires Reflects(st0, src, moved, st) && f !in moved && src + [f] in st0.files && IsImageName(f)
    requires src + [ArchiveName] in st0.dirs && ArchivePath(st0, src, f) !in st0.dirs
    requires RouteDir(src, info) in st.dirs && !Exists(st, SortTarget(src, info, f))
    ensures var target := SortTarget(src, info, f);
      var mv := AfterMove(st, src + [f], target);
      var archived := AfterCopy2(mv.st, target, src + [ArchiveName, f]);
      mv.ok && archived.ok && Reflects(st0, src, moved[f := info], archived.st)
  {
    var target := SortTarget(src, info, f);
    var mv := AfterMove(st, src + [f], target);
    MoveSucceeds(st0, src, moved, st, info, f);
    EntryStillThere(st0, src, moved, st, f);
    var c := st0.files[src + [f]];
    assert mv.st == FsState((st.files - {src + [f]})[target := c], st.dirs);
    ArchiveCopy(st0, src, mv.st, info, f);
    var archived := AfterCopy2(mv.st, target, src + [ArchiveName, f]);
    var t := ArchivePath(st0, src, f);
    assert archived.st == FsState(((st.files - {src + [f]})[target := c])[t := c], st.dirs);
    assert |t| < |target| && |src + [f]| < |t|;
    forall p ensures Lookup(archived.st.files, p) == ExpectedFile(st0, src, moved[f := info], p) {
      ExpectedAfterSorting(st0, src, moved, info, f, p);
      assert Lookup(st.files, p) == ExpectedFile(st0, src, moved, p);
    }
  }

  /** The screenshots sorted so far, once an entry with outcome `o` has been processed. */
  function AfterOutcome(moved: map<string, ScreenshotInfo>, o: Outcome, f: string): map<string, ScreenshotInfo> {
    if o.Sorted? then moved[f := o.info] else moved
  }

  /** Routing a recognised screenshot, part way through the loop, does what `RouteOutcome` on `st0` says. */
  lemma RouteAsClassified(st0: FsState, src: Path, moved: map<string, ScreenshotInfo>, st: FsState, f: string, info: ScreenshotInfo)
    requires Valid(st0) && src in st0.dirs && src + [ArchiveName] in st0.dirs
    requires Reflects(st0, src, moved, st) && f !in moved
    requires IsImageName(f) && src + [f] in st0.files && FitsMask(info.dateFolder, DateFolderMask)
    ensures var e := RouteAndArchive(st, src, f, info);
      var o := RouteOutcome(st0, src, f, info);
      && e.ok == !o.Aborts()
      && e.log == OutcomeLog(o, f)
      && (e.ok ==> Reflects(st0, src, AfterOutcome(moved, o, f), e.st))
  {
    var dir := RouteDir(src, info);
    RouteFilesUnchanged(st0, src, moved, st, info);
    var made := AfterMakeDirs(st, dir);
    if made.ok {
      MakeRouteReflects(st0, src, moved, st, info);
      TargetUnchanged(st0, src, moved, made.st, info, f);
      if !Exists(made.st, dir + [f]) {
        MoveSucceeds(st0, src, moved, made.st, info, f);
        var mv := AfterMove(made.st, src + [f], dir + [f]);
        ArchiveCopy(st0, src, mv.st, info, f);
        if ArchivePath(st0, src, f) !in st0.dirs {
          SortedReflects(st0, src, moved, made.st, info, f);
        }
      }
    }
  }

  /**
    One entry, part way through the loop, does what its outcome on `st0`
    says: it raises exactly for the blocking outcomes, logs the outcome's line
    and otherwise keeps the invariant.
   */
  lemma SortEntryAsClassified(st0: FsState, src: Path, moved: map<string, ScreenshotInfo>, st: FsState, f: string)
    requires Valid(st0) && src in st0.dirs && src + [ArchiveName] in st0.dirs
    requires Reflects(st0, src, moved, st) && f !in moved
    requires IsImageName(f) ==> src + [f] in st0.files
    ensures var e := SortEntry(st, src, f);
      var o := OutcomeOf(st0, src, f);
      && e.ok == !o.Aborts()
      && e.log == OutcomeLog(o, f)
      && (e.ok ==> Reflects(st0, src, AfterOutcome(moved, o, f), e.st))
  {
    if IsImageName(f) && Recognize(f).Some? {
      RouteAsClassified(st0, src, moved, st, f, Recognize(f).value);
    }
  }

  /** The screenshots of `names` the loop sorts, with their routes, folded in listing order. */
  function SortedEntries(st0: FsState, src: Path, names: seq<string>): map<string, ScreenshotInfo>
    decreases |names|
  {
    if names == [] then map[]
    else
      var f := names[|names| - 1];
      AfterOutcome(SortedEntries(st0, src, names[..|names| - 1]), OutcomeOf(st0, src, f), f)
  }

  /** The entries sorted are exactly the listed entries whose outcome is `Sorted`, whatever the order. */
  lemma {:induction false} SortedEntriesMeaning(st0: FsState, src: Path, names: seq<string>)
    ensures forall g :: g in SortedEntries(st0, src, names) <==> g in names && OutcomeOf(st0, src, g).Sorted?
    ensures forall g :: g in SortedEntries(st0, src, names) ==> Sorted(SortedEntries(st0, src, names)[g]) == OutcomeOf(st0, src, g)
    decreases |names|
  {
    if names != [] {
      var init := names[..|names| - 1];
      SortedEntriesMeaning(st0, src, init);
      assert names == init + [names[|names| - 1]];
    }
  }

  /**
    The loop over `names`, started in `st0`, raises exactly when some entry's
    outcome blocks; otherwise it logs each entry's outcome in listing order and
    ends in the state where exactly the `Sorted` entries have been moved.
   */
  lemma {:induction false} SortRunAsClassified(st0: FsState, src: Path, names: seq<string>)
    requires RunReady(st0, src, names)
    ensures var r := SortRun(st0, src, names);
      && (r.ok <==> forall i :: 0 <= i < |names| ==> !OutcomeOf(st0, src, names[i]).Aborts())
      && (r.ok ==> r.log == ExpectedLog(st0, src, names))
      && (r.ok ==> Reflects(st0, src, SortedEntries(st0, src, names), r.st))
    decreases |names|
  {
    if names == [] {
      ReflectsInitially(st0, src);
    } else {
      var init := names[..|names| - 1];
      var f := names[|names| - 1];
      assert names == init + [f];
      assert RunReady(st0, src, init);
      SortRunAsClassified(st0, src, init);
      var r := SortRun(st0, src, init);
      if r.ok {
        SortedEntriesMeaning(st0, src, init);
        assert f !in init;
        SortEntryAsClassified(st0, src, SortedEntries(st0, src, init), r.st, f);
      }
    }
  }

  /** The loop raises exactly when some listed entry's outcome blocks. */
  lemma SortRunOkIff(st0: FsState, src: Path, names: seq<string>)
    requires RunReady(st0, src, names)
    ensures SortRun(st0, src, names).ok <==> forall f :: f in names ==> !OutcomeOf(st0, src, f).Aborts()
  {
    SortRunAsClassified(st0, src, names);
    if !SortRun(st0, src, names).ok {
      var i :| 0 <= i < |names| && OutcomeOf(st0, src, names[i]).Aborts();
      assert names[i] in names;
    }
  }

  /** A run that does not raise ends where exactly the `Sorted` entries have been moved. */
  lemma SortRunReflects(st0: FsState, src: Path, names: seq<string>)
    requires RunReady(st0, src, names)
    ensures var r := SortRun(st0, src, names);
      r.ok ==> Reflects(st0, src, SortedEntries(st0, src, names), r.st)
  {
    SortRunAsClassified(st0, src, names);
  }

  /** `p` is the source entry, the target or the archive path of a screenshot of `names` that gets sorted. */
  predicate Touched(st0: FsState, src: Path, names: seq<string>, p: Path) {
    p != [] && p[|p| - 1] in names &&
    var g := p[|p| - 1];
    match OutcomeOf(st0, src, g)
    case Sorted(info) => p == src + [g] || p == SortTarget(src, info, g) || p == ArchivePath(st0, src, g)
    case _ => false
  }

  /** The state the loop starts in: the given one with `src/Archive` created. */
  function LoopStart(st: FsState, src: Path): FsState {
    AfterMakeDirs(st, src + [ArchiveName]).st
  }

  /** Making `src/Archive` (line 153) raises exactly when `src/Archive` is a file, and changes no file. */
  lemma LoopStartFacts(st: FsState, src: Path)
    requires Valid(st) && src in st.dirs
    ensures AfterMakeDirs(st, src + [ArchiveName]).ok <==> src + [ArchiveName] !in st.files
    ensures LoopStart(st, src).files == st.files && Valid(LoopStart(st, src))
    ensures AfterMakeDirs(st, src + [ArchiveName]).ok ==> LoopStart(st, src).dirs == st.dirs + {src + [ArchiveName]}
  {
    assert ParentsAreDirs(src, st.dirs);
    assert forall i :: 1 <= i <= |src| ==> (src + [ArchiveName])[..i] == src[..i] && src[..i] in st.dirs by {
      assert src[..|src|] == src;
    }
    assert (src + [ArchiveName])[..|src| + 1] == src + [ArchiveName];
  }

  /** `p` is the source entry, the target or the archive path of one of the screenshots `moved`. */
  predicate TouchedBy(st0: FsState, src: Path, moved: map<string, ScreenshotInfo>, p: Path) {
    p != [] && p[|p| - 1] in moved &&
    var g := p[|p| - 1];
    p == src + [g] || p == SortTarget(src, moved[g], g) || p == ArchivePath(st0, src, g)
  }

  /** The paths touched by the screenshots of `names` that get sorted are those touched by `SortedEntries`. */
  lemma TouchedBySorted(st0: FsState, src: Path, names: seq<string>, p: Path)
    ensures Touched(st0, src, names, p) == TouchedBy(st0, src, SortedEntries(st0, src, names), p)
  {
    SortedEntriesMeaning(st0, src, names);
  }

  /** Once the screenshots `moved` are sorted, each has left the source folder and sits at its target and archive path. */
  lemma MovedFilesPlaced(st0: FsState, src: Path, moved: map<string, ScreenshotInfo>, st: FsState, f: string)
    requires Reflects(st0, src, moved, st)
    requires f in moved && src + [f] in st0.files
    ensures src + [f] !in st.files
    ensures SortTarget(src, moved[f], f) in st.files && st.files[SortTarget(src, moved[f], f)] == st0.files[src + [f]]
    ensures ArchivePath(st0, src, f) in st.files && st.files[ArchivePath(st0, src, f)] == st0.files[src + [f]]
  {
    assert Lookup(st.files, src + [f]) == ExpectedFile(st0, src, moved, src + [f]);
    assert Lookup(st.files, SortTarget(src, moved[f], f)) == ExpectedFile(st0, src, moved, SortTarget(src, moved[f], f));
    assert Lookup(st.files, ArchivePath(st0, src, f)) == ExpectedFile(st0, src, moved, ArchivePath(st0, src, f));
  }

  /** Once the screenshots `moved` are sorted, every path none of them touched holds what it held in `st0`. */
  lemma UntouchedFilesKept(st0: FsState, src: Path, moved: map<string, ScreenshotInfo>, st: FsState, p: Path)
    requires Reflects(st0, src, moved, st)
    requires !TouchedBy(st0, src, moved, p)
    ensures Lookup(st.files, p) == Lookup(st0.files, p)
  {
    assert Lookup(st.files, p) == ExpectedFile(st0, src, moved, p);
  }

  /** What the whole call needs: a valid tree, an existing source folder and no folder with an image name in it. */
  ghost predicate CallReady(st: FsState, src: Path, listing: seq<string>) {
    && Valid(st) && src in st.dirs
    && (forall f :: IsImageName(f) && Exists(st, src + [f]) ==> src + [f] in st.files)
    && IsListing(LoopStart(st, src), src, listing)
  }

  /** Under `CallReady`, the loop starts as `SortRun` needs. */
  lemma CallReadyRun(st: FsState, src: Path, listing: seq<string>)
    requires CallReady(st, src, listing) && src + [ArchiveName] !in st.files
    ensures RunReady(LoopStart(st, src), src, listing)
    ensures SortAndArchive(st, src, listing) == SortRun(LoopStart(st, src), src, listing)
  {
    LoopStartFacts(st, src);
    CallReadyIsRunReady(st, src, listing);
  }

  /** Under `CallReady`, the state after `src/Archive` was made is one the loop can start in. */
  lemma CallReadyIsRunReady(st: FsState, src: Path, listing: seq<string>)
    requires CallReady(st, src, listing) && src + [ArchiveName] !in st.files
    ensures RunReady(LoopStart(st, src), src, listing)
    ensures LoopStart(st, src).files == st.files
  {
    LoopStartFacts(st, src);
    ArchiveIsNoImageName();
    var st0 := LoopStart(st, src);
    forall f | f in listing && IsImageName(f) ensures src + [f] in st0.files {
      assert f != ArchiveName && (src + [f])[|src|] == f;
      assert Exists(st0, src + [f]) && src + [f] != src + [ArchiveName];
    }
  }

  /**
    `sort_and_archive_in_source`, for any order `os.listdir` returns the
    entries in, raises exactly when `src/Archive` is a file or some entry's
    outcome (on the state after `src/Archive` was made) blocks; when it does
    not raise it logs every entry's outcome in listing order.
   */
  lemma SortAndArchiveLog(st: FsState, src: Path, listing: seq<string>)
    requires CallReady(st, src, listing)
    ensures var r := SortAndArchive(st, src, listing);
      && (r.ok <==> src + [ArchiveName] !in st.files && forall i :: 0 <= i < |listing| ==> !OutcomeOf(LoopStart(st, src), src, listing[i]).Aborts())
      && (r.ok ==> r.log == ExpectedLog(LoopStart(st, src), src, listing))
  {
    LoopStartFacts(st, src);
    if src + [ArchiveName] !in st.files {
      CallReadyRun(st, src, listing);
      SortRunAsClassified(LoopStart(st, src), src, listing);
    }
  }

  /** Once the screenshots of `names` are sorted, the sorted screenshot `f` has left the source folder and sits at its target and archive path. */
  lemma ReflectedSortedFile(st0: FsState, src: Path, names: seq<string>, st: FsState, f: string, info: ScreenshotInfo)
    requires RunReady(st0, src, names)
    requires Reflects(st0, src, SortedEntries(st0, src, names), st)
    requires f in names && OutcomeOf(st0, src, f) == Sorted(info)
    ensures src + [f] in st0.files && src + [f] !in st.files
    ensures SortTarget(src, info, f) in st.files && st.files[SortTarget(src, info, f)] == st0.files[src + [f]]
    ensures ArchivePath(st0, src, f) in st.files && st.files[ArchivePath(st0, src, f)] == st0.files[src + [f]]
  {
    var moved := SortedEntries(st0, src, names);
    SortedEntriesMeaning(st0, src, names);
    assert f in moved && moved[f] == info;
    MovedFilesPlaced(st0, src, moved, st, f);
  }

  /**
    In `st`, every screenshot of `names` whose outcome on `st0` is `Sorted`
    has left the source folder, its contents sitting at its target and at
    its archive path.
   */
  ghost predicate SortedPlaced(st0: FsState, src: Path, names: seq<string>, st: FsState) {
    forall f, info :: f in names && OutcomeOf(st0, src, f) == Sorted(info) ==>
      && src + [f] in st0.files && src + [f] !in st.files
      && SortTarget(src, info, f) in st.files && st.files[SortTarget(src, info, f)] == st0.files[src + [f]]
      && ArchivePath(st0, src, f) in st.files && st.files[ArchivePath(st0, src, f)] == st0.files[src + [f]]
  }

  /** Once the screenshots of `names` are sorted, each has left the source folder and sits at its target and archive path. */
  lemma ReflectedSortedFiles(st0: FsState, src: Path, names: seq<string>, st: FsState)
    requires RunReady(st0, src, names)
    requires Reflects(st0, src, SortedEntries(st0, src, names), st)
    ensures SortedPlaced(st0, src, names, st)
  {
    forall f, info | f in names && OutcomeOf(st0, src, f) == Sorted(info)
      ensures src + [f] in st0.files && src + [f] !in st.files
      ensures SortTarget(src, info, f) in st.files && st.files[SortTarget(src, info, f)] == st0.files[src + [f]]
      ensures ArchivePath(st0, src, f) in st.files && st.files[ArchivePath(st0, src, f)] == st0.files[src + [f]]
    {
      ReflectedSortedFile(st0, src, names, st, f, info);
    }
  }

  /** Once the screenshots of `names` are sorted, every path none of them touched holds what it held in `st0`. */
  lemma ReflectedOtherFiles(st0: FsState, src: Path, names: seq<string>, st: FsState)
    requires Reflects(st0, src, SortedEntries(st0, src, names), st)
    ensures forall p :: !Touched(st0, src, names, p) ==> Lookup(st.files, p) == Lookup(st0.files, p)
  {
    var moved := SortedEntries(st0, src, names);
    forall p | !Touched(st0, src, names, p) ensures Lookup(st.files, p) == Lookup(st0.files, p) {
      TouchedBySorted(st0, src, names, p);
      UntouchedFilesKept(st0, src, moved, st, p);
    }
  }

  /** Two runs over listings of the same entries agree on success and on the files they leave. */
  lemma SortRunOrderIrrelevant(st0: FsState, src: Path, names1: seq<string>, names2: seq<string>)
    requires RunReady(st0, src, names1) && RunReady(st0, src, names2)
    requires forall f :: f in names1 <==> f in names2
    ensures var r1 := SortRun(st0, src, names1);
      var r2 := SortRun(st0, src, names2);
      r1.ok == r2.ok && (r1.ok ==> r1.st.files == r2.st.files)
  {
    SortRunOkIff(st0, src, names1);
    SortRunOkIff(st0, src, names2);
    SortRunReflects(st0, src, names1);
    SortRunReflects(st0, src, names2);
    var r1 := SortRun(st0, src, names1);
    var r2 := SortRun(st0, src, names2);
    if r1.ok {
      SortedEntriesMeaning(st0, src, names1);
      SortedEntriesMeaning(st0, src, names2);
      var moved := SortedEntries(st0, src, names1);
      assert SortedEntries(st0, src, names2) == moved;
      assert forall p :: Lookup(r1.st.files, p) == ExpectedFile(st0, src, moved, p) == Lookup(r2.st.files, p);
      LookupExtensional(r1.st.files, r2.st.files);
    }
  }

  /**
    When `sort_and_archive_in_source` does not raise, `src/Archive` is a
    folder and every screenshot whose outcome is `Sorted` has left the source
    folder, its contents sitting at its target and at its archive path.
    `LoopStart` has the files of `st`, so the contents are those `st` had.
   */
  lemma SortAndArchivePlaced(st: FsState, src: Path, listing: seq<string>)
    requires CallReady(st, src, listing)
    ensures LoopStart(st, src).files == st.files
    ensures var r := SortAndArchive(st, src, listing);
      && (r.ok ==> src + [ArchiveName] in r.st.dirs)
      && (r.ok ==> SortedPlaced(LoopStart(st, src), src, listing, r.st))
  {
    LoopStartFacts(st, src);
    var r := SortAndArchive(st, src, listing);
    if r.ok {
      CallReadyRun(st, src, listing);
      SortRunReflects(LoopStart(st, src), src, listing);
      ReflectedSortedFiles(LoopStart(st, src), src, listing, r.st);
    }
  }

  /** When `sort_and_archive_in_source` does not raise, no file is changed but those of sorted screenshots. */
  lemma SortAndArchiveKeepsOthers(st: FsState, src: Path, listing: seq<string>)
    requires CallReady(st, src, listing)
    ensures var r := SortAndArchive(st, src, listing);
      r.ok ==> forall p :: !Touched(LoopStart(st, src), src, listing, p) ==> Lookup(r.st.files, p) == Lookup(st.files, p)
  {
    LoopStartFacts(st, src);
    if src + [ArchiveName] !in st.files {
      var st0 := LoopStart(st, src);
      CallReadyRun(st, src, listing);
      var r := SortRun(st0, src, listing);
      SortRunReflects(st0, src, listing);
      if r.ok {
        ReflectedOtherFiles(st0, src, listing, r.st);
      }
    }
  }

  /** The order `os.listdir` returns the entries in changes neither success nor the files left behind. */
  lemma SortOrderIrrelevant(st: FsState, src: Path, listing1: seq<string>, listing2: seq<string>)
    requires CallReady(st, src, listing1) && CallReady(st, src, listing2)
    ensures var r1 := SortAndArchive(st, src, listing1);
      var r2 := SortAndArchive(st, src, listing2);
      r1.ok == r2.ok && (r1.ok ==> r1.st.files == r2.st.files)
  {
    LoopStartFacts(st, src);
    if src + [ArchiveName] !in st.files {
      CallReadyRun(st, src, listing1);
      CallReadyRun(st, src, listing2);
      assert forall f :: f in listing1 <==> f in listing2;
      SortRunOrderIrrelevant(LoopStart(st, src), src, listing1, listing2);
    }
  }

  /** Once an entry raised, the rest of the listing is not looked at: the run ends as its prefix did. */
  lemma {:induction false} SortRunStops(st: FsState, src: Path, names: seq<string>, k: nat)
    requires k <= |names| && !SortRun(st, src, names[..k]).ok
    ensures SortRun(st, src, names) == SortRun(st, src, names[..k])
    decreases |names|
  {
    if |names| == k {
      assert names[..k] == names;
    } else {
      var pre := names[..|names| - 1];
      assert pre[..k] == names[..k];
      SortRunStops(st, src, pre, k);
    }
  }

  /** One more entry of a run that has not raised so far. */
  lemma SortRunExtend(st: FsState, src: Path, names: seq<string>, i: nat)
    requires i < |names| && SortRun(st, src, names[..i]).ok
    ensures var r := SortRun(st, src, names[..i]);
      var e := SortEntry(r.st, src, names[i]);
      SortRun(st, src, names[..i + 1]) == Step(e.ok, e.st, r.log + e.log, r.placed + e.placed)
  {
    assert names[..i + 1][..i] == names[..i];
  }
}
