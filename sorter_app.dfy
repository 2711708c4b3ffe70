/**
  The sorter window: `start_sorting` checks the folders it was given, clears
  the log panel and runs one of the two modes on the filesystem, step by step,
  as `sort_and_archive_in_source` and `copy_to_destination` do. Each method is
  proved to leave the filesystem and the log exactly as the functions of
  `MoveArchive` and `CopyDestination` say, so the lemmas proved there hold of
  every run of the window.
 */
module SorterApp {
  import opened Wrappers
  import opened FilenameParser
  import opened CollisionResolver
  import opened FileSystemModel
  import opened Routing
  import opened MoveArchive
  import opened CopyDestination

  /** The two radio buttons: option "1" sorts in place and archives, option "2" copies to a destination. */
  datatype Mode = MoveAndArchive | CopyToDestination

  /** The message box `start_sorting` ends with. */
  datatype Verdict =
    | InvalidSource       // "Please select a valid Source Folder."
    | InvalidDestination  // "Please select a valid Destination Folder."
    | Completed           // "Sorting completed successfully!"
    | Failed              // "An error occurred: ..."

  /**
    Lines 124-129: the check of the folder fields. An empty field is the
    empty path; the destination is only looked at in copy mode.
   */
  function CheckFolders(st: FsState, mode: Mode, src: Path, dest: Path): (r: Option<Verdict>)
    ensures r == Some(InvalidSource) <==> src == [] || src !in st.dirs
    ensures r == Some(InvalidDestination) <==> src != [] && src in st.dirs && mode == CopyToDestination && (dest == [] || dest !in st.dirs)
    ensures r.None? <==> src != [] && src in st.dirs && (mode == CopyToDestination ==> dest != [] && dest in st.dirs)
    ensures r.Some? ==> r.value == InvalidSource || r.value == InvalidDestination
  {
    if src == [] || src !in st.dirs then Some(InvalidSource)
    else if mode == CopyToDestination && (dest == [] || dest !in st.dirs) then Some(InvalidDestination)
    else None
  }

  /** The verdict for inputs that passed the check: the run raised or it did not. */
  function VerdictOf(r: Step): (v: Verdict)
    ensures v == Completed <==> r.ok
    ensures v == Failed <==> !r.ok
  {
    if r.ok then Completed else Failed
  }

  /** With accepted folders on a valid tree, a copy run never loses or changes a file that existed before. */
  lemma AcceptedCopyKeepsFiles(st: FsState, src: Path, dest: Path, listing: seq<string>)
    requires Valid(st) && IsListing(st, src, listing)
    requires CheckFolders(st, CopyToDestination, src, dest).None?
    ensures var r := CopyRun(st, dest, src, listing);
      && (forall p :: p in st.files ==> p in r.st.files && r.st.files[p] == st.files[p])
      && (forall p :: p in r.st.files && p !in st.files ==> p in r.placed)
      && (VerdictOf(r) == Completed <==> forall f :: f in listing ==> CopyReady(st, dest, src, f))
      && DirsGrownBelowDates(st, dest, r.st)
  {
    CopyRunFrame(st, dest, src, listing);
    CopyRunDirs(st, dest, src, listing);
  }

  /** With an accepted source folder, the move mode does not raise exactly when the archive can be made and no entry blocks. */
  lemma AcceptedMoveVerdict(st: FsState, src: Path, listing: seq<string>)
    requires CallReady(st, src, listing)
    requires CheckFolders(st, MoveAndArchive, src, []).None?
    ensures var r := SortAndArchive(st, src, listing);
      VerdictOf(r) == Completed <==> src + [ArchiveName] !in st.files && forall i :: 0 <= i < |listing| ==> !OutcomeOf(LoopStart(st, src), src, listing[i]).Aborts()
  {
    SortAndArchiveLog(st, src, listing);
  }

  /** Appending to the log panel in two steps or in one. */
  lemma AppendAssoc(a: seq<LogEntry>, b: seq<LogEntry>, c: seq<LogEntry>)
    ensures (a + b) + c == a + (b + c)
  {
  }

  /** The window: its log panel and the filesystem it sorts. */
  class Sorter {
    var log: seq<LogEntry>
    const fs: FileSystem

    constructor (fs: FileSystem)
      ensures this.fs == fs && log == []
    {
      this.fs := fs;
      log := [];
    }

    /** Lines 163-172 for a screenshot routed by `info`. */
    method RouteAndArchiveOne(src: Path, f: string, info: ScreenshotInfo) returns (ok: bool)
      modifies this, fs
      ensures var e := RouteAndArchive(old(fs.State()), src, f, info);
        ok == e.ok && fs.State() == e.st && log == old(log) + e.log
    {
      var dir := RouteDir(src, info);
      ok := fs.MakeDirs(dir);
      if !ok {
        return;
      }
      var there := fs.PathExists(dir + [f]);
      if there {
        log := log + [SkippedExists(f)];
        return;
      }
      ok := fs.Move(src + [f], dir + [f]);
      if !ok {
        return;
      }
      ok := fs.Copy2(dir + [f], src + [ArchiveName, f]);
      if !ok {
        return;
      }
      log := log + [Moved(f, info)];
    }

    /** Lines 156-172: one pass of the loop of `sort_and_archive_in_source`. */
    method SortOne(src: Path, f: string) returns (ok: bool)
      modifies this, fs
      ensures var e := SortEntry(old(fs.State()), src, f);
        ok == e.ok && fs.State() == e.st && log == old(log) + e.log
    {
      ok := true;
      if !IsImageName(f) {
        return;
      }
      var found := Recognize(f);
      if found.None? {
        log := log + [SkippedUnrecognized(f)];
        return;
      }
      ok := RouteAndArchiveOne(src, f, found.value);
    }

    /** The pass of the loop for `names[i]`, continuing the run over `names[..i]` from `st0`. */
    method SortOneOf(src: Path, names: seq<string>, i: nat, ghost st0: FsState, ghost log0: seq<LogEntry>) returns (ok: bool)
      requires i < |names|
      requires SortRun(st0, src, names[..i]).ok
      requires fs.State() == SortRun(st0, src, names[..i]).st && log == log0 + SortRun(st0, src, names[..i]).log
      modifies this, fs
      ensures var r := SortRun(st0, src, names[..i + 1]);
        ok == r.ok && fs.State() == r.st && log == log0 + r.log
    {
      SortRunExtend(st0, src, names, i);
      ghost var before := log;
      ghost var r := SortRun(st0, src, names[..i]);
      ok := SortOne(src, names[i]);
      AppendAssoc(log0, r.log, log[|before|..]);
    }

    /**
      Lines 151-172: make `src/Archive`, list `src` and sort its entries
      until one raises. `listing` is the order `os.listdir` chose.
     */
    method SortAndArchiveInSource(src: Path) returns (ok: bool, ghost listing: seq<string>)
      modifies this, fs
      ensures AfterMakeDirs(old(fs.State()), src + [ArchiveName]).ok ==> IsListing(LoopStart(old(fs.State()), src), src, listing)
      ensures var r := SortAndArchive(old(fs.State()), src, listing);
        ok == r.ok && fs.State() == r.st && log == old(log) + r.log
    {
      listing := [];
      ok := fs.MakeDirs(src + [ArchiveName]);
      if !ok {
        return;
      }
      var names := fs.ListDir(src);
      listing := names;
      ghost var st0 := fs.State();
      ghost var log0 := log;
      var i := 0;
      while i < |names|
        invariant 0 <= i <= |names|
        invariant fs.State() == SortRun(st0, src, names[..i]).st
        invariant SortRun(st0, src, names[..i]).ok
        invariant log == log0 + SortRun(st0, src, names[..i]).log
      {
        ok := SortOneOf(src, names, i, st0, log0);
        if !ok {
          SortRunStops(st0, src, names, i + 1);
          return;
        }
        i := i + 1;
      }
      assert names[..i] == names;
    }

    /** Lines 183-198 for a screenshot routed by `info`: the free name is found by the loop of lines 186-195. */
    method CopyRoutedOne(dest: Path, src: Path, f: string, info: ScreenshotInfo) returns (ok: bool)
      modifies this, fs
      ensures var e := CopyRouted(old(fs.State()), dest, src, f, info);
        ok == e.ok && fs.State() == e.st && log == old(log) + e.log
    {
      var dir := RouteDir(dest, info);
      ok := fs.MakeDirs(dir);
      if !ok {
        return;
      }
      var name, _ := ResolveCollision(NamesIn(fs.State(), dir), f);
      ok := fs.Copy2(src + [f], dir + [name]);
      if !ok {
        return;
      }
      log := log + [Copied(f, info)];
    }

    /** Lines 176-198: one pass of the loop of `copy_to_destination`. */
    method CopyOne(dest: Path, src: Path, f: string) returns (ok: bool)
      modifies this, fs
      ensures var e := CopyEntry(old(fs.State()), dest, src, f);
        ok == e.ok && fs.State() == e.st && log == old(log) + e.log
    {
      ok := true;
      if !IsImageName(f) {
        return;
      }
      var found := Recognize(f);
      if found.None? {
        log := log + [SkippedUnrecognized(f)];
        return;
      }
      ok := CopyRoutedOne(dest, src, f, found.value);
    }

    /** The pass of the loop for `names[i]`, continuing the run over `names[..i]` from `st0`. */
    method CopyOneOf(dest: Path, src: Path, names: seq<string>, i: nat, ghost st0: FsState, ghost log0: seq<LogEntry>) returns (ok: bool)
      requires i < |names|
      requires CopyRun(st0, dest, src, names[..i]).ok
      requires fs.State() == CopyRun(st0, dest, src, names[..i]).st && log == log0 + CopyRun(st0, dest, src, names[..i]).log
      modifies this, fs
      ensures var r := CopyRun(st0, dest, src, names[..i + 1]);
        ok == r.ok && fs.State() == r.st && log == log0 + r.log
    {
      CopyRunExtend(st0, dest, src, names, i);
      ghost var before := log;
      ghost var r := CopyRun(st0, dest, src, names[..i]);
      ok := CopyOne(dest, src, names[i]);
      AppendAssoc(log0, r.log, log[|before|..]);
    }

    /** Lines 174-198: list `src` and copy its screenshots into `dest` until one raises. */
    method CopyToDestinationFolder(dest: Path, src: Path) returns (ok: bool, ghost listing: seq<string>)
      modifies this, fs
      ensures IsListing(old(fs.State()), src, listing)
      ensures var r := CopyRun(old(fs.State()), dest, src, listing);
        ok == r.ok && fs.State() == r.st && log == old(log) + r.log
    {
      ghost var st0 := fs.State();
      ghost var log0 := log;
      var names := fs.ListDir(src);
      listing := names;
      ok := true;
      var i := 0;
      while i < |names|
        invariant 0 <= i <= |names|
        invariant fs.State() == CopyRun(st0, dest, src, names[..i]).st
        invariant CopyRun(st0, dest, src, names[..i]).ok
        invariant log == log0 + CopyRun(st0, dest, src, names[..i]).log
      {
        ok := CopyOneOf(dest, src, names, i, st0, log0);
        if !ok {
          CopyRunStops(st0, dest, src, names, i + 1);
          return;
        }
        i := i + 1;
      }
      assert names[..i] == names;
    }

    /**
      Lines 116-139: clear the log, reject invalid folders without touching
      the filesystem, else run the chosen mode and report whether it raised.
     */
    method StartSorting(mode: Mode, src: Path, dest: Path) returns (v: Verdict, ghost listing: seq<string>)
      modifies this, fs
      ensures CheckFolders(old(fs.State()), mode, src, dest).Some? ==>
        v == CheckFolders(old(fs.State()), mode, src, dest).value && fs.State() == old(fs.State()) && log == [] && listing == []
      ensures CheckFolders(old(fs.State()), mode, src, dest).None? && mode == MoveAndArchive ==>
        var r := SortAndArchive(old(fs.State()), src, listing);
        && (AfterMakeDirs(old(fs.State()), src + [ArchiveName]).ok ==> IsListing(LoopStart(old(fs.State()), src), src, listing))
        && v == VerdictOf(r) && fs.State() == r.st && log == r.log
      ensures CheckFolders(old(fs.State()), mode, src, dest).None? && mode == CopyToDestination ==>
        var r := CopyRun(old(fs.State()), dest, src, listing);
        && IsListing(old(fs.State()), src, listing)
        && v == VerdictOf(r) && fs.State() == r.st && log == r.log
    {
      log := [];
      listing := [];
      var srcIsDir := fs.IsDir(src);
      if src == [] || !srcIsDir {
        v := InvalidSource;
        return;
      }
      if mode == CopyToDestination {
        var destIsDir := fs.IsDir(dest);
        if dest == [] || !destIsDir {
          v := InvalidDestination;
          return;
        }
      }
      var ok;
      if mode == MoveAndArchive {
        ok, listing := SortAndArchiveInSource(src);
      } else {
        ok, listing := CopyToDestinationFolder(dest, src);
      }
      v := if ok then Completed else Failed;
    }
  }
}
