/**
  What both sorting modes share: where a recognised screenshot is routed, the
  log the sorter writes, and the result of running part of a sort.
 */
module Routing {
  import opened Wrappers
  import opened Strings
  import opened FilenameParser
  import opened FileSystemModel

  /** The name of the archive folder created in the source folder. */
  const ArchiveName := "Archive"

  /**
    One line of the log panel. `Moved` and `Copied` are shown as successes,
    the two skips as errors.
   */
  datatype LogEntry =
    | Moved(file: string, info: ScreenshotInfo)
    | Copied(file: string, info: ScreenshotInfo)
    | SkippedUnrecognized(file: string)
    | SkippedExists(file: string)

  /** `root/<date folder>/<zone>/<character>`, the folder a screenshot is routed to. */
  function RouteDir(root: Path, info: ScreenshotInfo): (dir: Path)
    ensures |dir| == |root| + 3 && dir[..|root|] == root
    ensures dir[|root|] == info.dateFolder && dir[|root| + 1] == info.zone && dir[|root| + 2] == info.character
  {
    root + [info.dateFolder, info.zone, info.character]
  }

  /**
    The state reached by processing some entries: `ok` is false once an
    operation raised (which ends the run), `log` holds what was logged and
    `placed` every path a screenshot was moved or copied to, in order.
   */
  datatype Step = Step(ok: bool, st: FsState, log: seq<LogEntry>, placed: seq<Path>)

  /** Looking up `p` in a file map. */
  function Lookup(files: map<Path, Content>, p: Path): (r: Option<Content>)
    ensures r.Some? <==> p in files
    ensures r.Some? ==> r.value == files[p]
  {
    if p in files then Some(files[p]) else None
  }

  /** `d` is the first component below `root` of a path routed there. */
  predicate UnderDateFolder(root: Path, q: Path) {
    |root| < |q| <= |root| + 3 && q[..|root|] == root && FitsMask(q[|root|], DateFolderMask)
  }

  /** `st` has the directories of `st0` and, besides them, only directories below a date folder of `root`. */
  ghost predicate DirsGrownBelowDates(st0: FsState, root: Path, st: FsState) {
    st0.dirs <= st.dirs && forall q :: q in st.dirs && q !in st0.dirs ==> UnderDateFolder(root, q)
  }

  /** Making a route folder only adds directories below a date folder of `root`. */
  lemma RouteDirsUnderDateFolder(st: FsState, root: Path, info: ScreenshotInfo, q: Path)
    requires Valid(st) && root in st.dirs && FitsMask(info.dateFolder, DateFolderMask)
    requires q in Prefixes(RouteDir(root, info)) && q !in st.dirs
    ensures UnderDateFolder(root, q)
  {
    var dir := RouteDir(root, info);
    assert forall i :: 1 <= i <= |root| ==> dir[..i] in st.dirs by {
      forall i | 1 <= i <= |root| ensures dir[..i] in st.dirs {
        assert dir[..i] == root[..i];
        assert root[..|root|] == root;
        assert ParentsAreDirs(root, st.dirs);
      }
    }
    var i :| 1 <= i <= |dir| && q == dir[..i];
    assert q[..|root|] == root && q[|root|] == info.dateFolder;
  }

  /** A date folder is neither the archive nor a screenshot. */
  lemma UnderDateFolderIsNoEntry(root: Path, q: Path)
    requires UnderDateFolder(root, q)
    ensures q[|root|] != ArchiveName && !IsImageName(q[|root|])
  {
    DateFolderIsNoImageName(q[|root|]);
  }

  /** Two file maps that agree on every lookup are equal. */
  lemma LookupExtensional(m1: map<Path, Content>, m2: map<Path, Content>)
    requires forall p :: Lookup(m1, p) == Lookup(m2, p)
    ensures m1 == m2
  {
    forall p | p in m1 ensures p in m2 {
      assert Lookup(m1, p) == Lookup(m2, p);
    }
    forall p | p in m2 ensures p in m1 {
      assert Lookup(m1, p) == Lookup(m2, p);
    }
    assert m1.Keys == m2.Keys;
    forall p | p in m1 ensures m1[p] == m2[p] {
      assert Lookup(m1, p) == Lookup(m2, p);
    }
  }

  /** The archive folder's name is not an image name, so the loop passes over it. */
  lemma ArchiveIsNoImageName()
    ensures !IsImageName(ArchiveName)
  {
    assert Lower(ArchiveName)[|ArchiveName| - 1] == 'e';
  }
}
