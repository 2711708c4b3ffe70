# Screenshot sorter, modelled in Dafny

The screenshot sorter is a small desktop tool for game screenshots. Their
file names look like `2024-03-07_18-22-01.123-Limsa Lominsa-Warrior of Light.png`:
a capture timestamp, the in-game zone and the character. The tool has two
modes:

- **sort in place and archive**: each recognised screenshot of the source
  folder moves to `<source>/<DD-MM-YYYY>/<zone>/<character>/`. A copy is
  then kept in `<source>/Archive/`.
- **copy to a destination**: each recognised screenshot is copied to
  `<destination>/<DD-MM-YYYY>/<zone>/<character>/`. If the name is taken
  there, the copy is numbered `name (1).png`, `name (2).png`, and so on.

The start button first checks the folder fields. It then runs the chosen
mode and reports whether the run completed or raised.

This project models that core and proves properties of the model. It covers
`extract_info`, the collision-resolving loop, `sort_and_archive_in_source`,
`copy_to_destination` and the checks of `start_sorting`. All of them come
from `screenshot_sorter_gui.py`.

## Modules

| File | Module | Contents |
|---|---|---|
| `wrappers.dfy` | `Wrappers` | an `Option` type |
| `strings.dfy` | `Strings` | the string operations of the source: `lower`, `strip`, `split`/`join`, reversing, decimal formatting |
| `filename_parser.dfy` | `FilenameParser` | `extract_info` and the extension filter |
| `collision_resolver.dfy` | `CollisionResolver` | `os.path.splitext`, the numbered names and the free-name loop |
| `file_system.dfy` | `FileSystemModel` | a tree of files and folders, and `os.makedirs`, `shutil.move`, `shutil.copy2`, `os.listdir`, `os.path.exists`, `os.path.isdir` over it |
| `routing.dfy` | `Routing` | what both modes share: the route folder, the log entries, an intermediate run state |
| `move_archive.dfy` | `MoveArchive` | `sort_and_archive_in_source` |
| `copy_destination.dfy` | `CopyDestination` | `copy_to_destination` |
| `sorter_app.dfy` | `SorterApp` | the window: the log panel, step-by-step drivers of both modes, and `start_sorting` |

### The regular expression

`extract_info` matches the pattern in lines 141-142 case-insensitively. The
model writes that match out as an explicit decomposition:

- `Parts` holds the fields: date, time, zone, character and extension.
- `WellFormed` states what the pattern demands of each field.
- `Assemble` glues the fields back into a name.

`Decompose` finds the decomposition of a name. It is proved complete
(`DecomposeComplete`) and unique (`DecompositionUnique`). The greediness of
`(.+)` does not need modelling: the character group `[^-]+` cannot contain a
dash, so the last dash of the name decides where the zone ends.

### The filesystem

A path is a sequence of components. The empty field `""` is the empty path.

`FsState` holds a map from file paths to contents and a set of folder
paths. `Valid` states three things:

- files and folders are disjoint;
- the empty path is neither;
- every proper prefix of an entry is a folder.

Each library call is a function from state to state, with an `ok` flag that
is false exactly where the call raises. The class `FileSystemModel.FileSystem`
is the mutable filesystem the window works on. Each of its methods is proved
to do what the matching function says.

`os.listdir` may return the entries in any order. `FileSystem.ListDir` picks
one nondeterministically, and the lemmas quantify over every listing.

### A run

A run is a fold of a per-entry step over the listing, which stops at the
first step that raises. In Python, an exception raised inside the loop
leaves `start_sorting` and ends in the error box. Each mode comes in three
parts:

- the operational definition (`SortRun`, `CopyRun`);
- a reference description that classifies every entry against the state the
  run starts in (`OutcomeOf`, `CopyReady`, `Recognised`);
- lemmas that prove the two agree, for every order of the listing.

The methods of `SorterApp.Sorter` run the loops step by step. Each method is
proved to end in exactly the state, and with exactly the log, that the
fold gives.

## Model

| member | source | states |
|---|---|---|
| Strings.LowerMeaning | screenshot_sorter_gui.py:156 | `str.lower` on ASCII letters turns each capital `A`-`Z` into its small letter (code point plus 32), leaves no capital letter and changes no other character |
| Strings.Strip | screenshot_sorter_gui.py:144-146 | the result of `str.strip` is a contiguous slice of the input with only whitespace cut off before and after it; it has no leading or trailing whitespace; it is empty exactly when the input is all whitespace; stripping an already stripped text changes nothing |
| Strings.StripSlice | screenshot_sorter_gui.py:144-146 | cutting the leading and then the trailing whitespace leaves a slice of the input with only whitespace outside it |
| Strings.Split | screenshot_sorter_gui.py:147 | `str.split(sep)` yields at least one piece, no piece contains the separator, and joining the pieces gives back the text |
| Strings.SplitJoin | screenshot_sorter_gui.py:147 | splitting a join of separator-free pieces gives back the pieces |
| Strings.Reverse | screenshot_sorter_gui.py:147 | `[::-1]` puts element `i` at position `n-1-i` |
| Strings.NatToString | screenshot_sorter_gui.py:191 | the decimal form of the counter is a non-empty string of digits without a leading zero |
| Strings.NatToStringRoundTrip | screenshot_sorter_gui.py:191 | the decimal form of the counter reads back as the counter |
| Strings.NatToStringInjective | screenshot_sorter_gui.py:191 | different counters have different decimal forms |
| FilenameParser.SplitImageExt | screenshot_sorter_gui.py:141 | the image-extension tail of the pattern: a split it returns glues back to the input with an accepted extension |
| FilenameParser.SplitImageExtAssembled | screenshot_sorter_gui.py:141 | every body followed by an accepted extension, in any letter case, splits back into that body and extension |
| FilenameParser.ParseStamp | screenshot_sorter_gui.py:141 | the fixed 24-character stamp splits into a date in `dddd-dd-dd` form and a time in `dd-dd-dd.ddd` form that glue back to it |
| FilenameParser.ParseStampComplete | screenshot_sorter_gui.py:141 | every date and time of the required form are found in the stamp they make |
| FilenameParser.ParseTail | screenshot_sorter_gui.py:141 | the `(.+)-([^-]+)\.ext` tail splits into a non-empty zone without a newline, a non-empty character without a dash and an accepted extension that glue back to it |
| FilenameParser.ParseTailComplete | screenshot_sorter_gui.py:141 | every zone, character and extension meeting the pattern are found in the tail they make |
| FilenameParser.Decompose | screenshot_sorter_gui.py:141-143 | a decomposition it returns is well formed and assembles to the name |
| FilenameParser.DecomposeComplete | screenshot_sorter_gui.py:141-143 | every name the pattern matches is decomposed, into the fields it was built from |
| FilenameParser.DecomposeNoneIff | screenshot_sorter_gui.py:141-143 | no decomposition is found exactly when no well-formed fields assemble to the name |
| FilenameParser.DecompositionUnique | screenshot_sorter_gui.py:141-143 | a name has at most one well-formed decomposition, so the groups of the match are determined |
| FilenameParser.DateFolderReversed | screenshot_sorter_gui.py:147 | the date folder of `YYYY-MM-DD` is `DD-MM-YYYY` and fits the `dd-dd-dddd` form |
| FilenameParser.ExtractInfo | screenshot_sorter_gui.py:140-149 | a match yields the date folder built from name positions 8-10, 5-7 and 0-4, a stripped zone and a stripped, dash-free character; a result is returned exactly when the pattern matches |
| FilenameParser.ExtractInfoRoundTrip | screenshot_sorter_gui.py:140-149 | a name built from well-formed fields parses back to its reversed date, stripped zone and stripped character |
| FilenameParser.ExtractInfoNoMatch | screenshot_sorter_gui.py:149 | `(None, None, None)` is returned exactly when no well-formed fields assemble to the name |
| FilenameParser.ExtNameIsImageName | screenshot_sorter_gui.py:156 | a name ending in `.` plus an accepted extension, in any letter case, passes the extension filter |
| FilenameParser.MatchedNameIsImageName | screenshot_sorter_gui.py:141-156 | every name `extract_info` matches passes the extension filter of the loop |
| FilenameParser.AssembleEndsWithExt | screenshot_sorter_gui.py:141 | an assembled name ends in `.` plus its extension |
| FilenameParser.WrongExtensionRejected | screenshot_sorter_gui.py:141-156 | a name the extension filter rejects is never matched |
| FilenameParser.Recognize | screenshot_sorter_gui.py:158-161 | a screenshot is routed only when it passes the filter, matches, and has a non-empty zone and character after stripping; otherwise the match failed or a field stripped to nothing |
| FilenameParser.DateFolderIsNoImageName | screenshot_sorter_gui.py:147-172 | a date folder is neither an image name nor `Archive`, so the folders a run creates are never entries it processes |
| FilenameParser.LimsaLominsaExample | screenshot_sorter_gui.py:140-149 | a concrete name parses to `07-03-2024`, `Limsa Lominsa`, `Warrior of Light` |
| CollisionResolver.SplitExt | screenshot_sorter_gui.py:188 | `os.path.splitext`: base plus extension give back the name; a non-empty extension is the last dot and what follows it, preceded by some non-dot character; leading dots never start an extension |
| CollisionResolver.NumberedInjective | screenshot_sorter_gui.py:191 | different counters give different names `base (k)ext` |
| CollisionResolver.NumberedIsNew | screenshot_sorter_gui.py:191 | a numbered name never equals the original name |
| CollisionResolver.CandidateInjective | screenshot_sorter_gui.py:183-195 | the probe sequence (the name itself, then the numbered names) never repeats a name |
| CollisionResolver.ProbeFrom | screenshot_sorter_gui.py:188-195 | probing from counter `k`, with every earlier candidate taken, stops at the first free candidate at `k` or later |
| CollisionResolver.FreeCounter | screenshot_sorter_gui.py:186-195 | the counter reached is that of the first free candidate; it is 0 exactly when the name itself is free |
| CollisionResolver.FreeName | screenshot_sorter_gui.py:186-195 | the chosen name is free; it is the file's own name when that is free; otherwise it is `base (k)ext` for some `k >= 1` with every smaller counter taken |
| CollisionResolver.ResolveCollision | screenshot_sorter_gui.py:186-195 | the `while True` loop ends at the first free candidate, which is `FreeName` |
| CollisionResolver.FirstFreeUnique | screenshot_sorter_gui.py:186-195 | the first free candidate is unique, so the loop's answer is determined |
| CollisionResolver.ResolveAfterConsecutive | screenshot_sorter_gui.py:186-195 | with the name and `(1)` to `(n)` taken and `(n+1)` free, the copy is named `(n+1)` |
| CollisionResolver.ResolveAgainIsFresh | screenshot_sorter_gui.py:186-197 | once the chosen name is taken, resolving again gives a different name that was not taken before |
| FileSystemModel.AfterMakeDirs | screenshot_sorter_gui.py:153 | `os.makedirs(p, exist_ok=True)` raises exactly when `p` is empty or a prefix of it is a file; it changes no file, adds only prefixes of `p` as folders, makes `p` a folder, keeps the tree valid, and changes nothing when it raises |
| FileSystemModel.MakeDirsExisting | screenshot_sorter_gui.py:164 | making an existing folder succeeds and changes nothing |
| FileSystemModel.MakeDirsIdempotent | screenshot_sorter_gui.py:164 | making the same folders twice is the same as once |
| FileSystemModel.AfterMove | screenshot_sorter_gui.py:168 | `shutil.move` to a free path succeeds exactly when the source is a file and the target's parent is a folder; the file leaves the source and appears at the target with the same contents; nothing else changes |
| FileSystemModel.AfterCopy2 | screenshot_sorter_gui.py:169 | `shutil.copy2` copies into `dst/<name>` when `dst` is a folder; it raises exactly when the source is not a file, the target is the source or a folder, or the target's parent is missing; otherwise only the target's contents change, to the source's |
| FileSystemModel.NamesIn | screenshot_sorter_gui.py:185-190 | a name is in the set exactly when `os.path.exists` holds for it in the folder |
| FileSystemModel.FileSystem.PathExists | screenshot_sorter_gui.py:167 | `os.path.exists` is true of files and folders |
| FileSystemModel.FileSystem.IsDir | screenshot_sorter_gui.py:124 | `os.path.isdir` is true of folders only |
| FileSystemModel.FileSystem.ListDir | screenshot_sorter_gui.py:155 | `os.listdir` returns every entry of the folder exactly once, in some order |
| FileSystemModel.FileSystem.MakeDirs | screenshot_sorter_gui.py:164 | the method changes the filesystem as `AfterMakeDirs` says |
| FileSystemModel.FileSystem.Move | screenshot_sorter_gui.py:168 | the method changes the filesystem as `AfterMove` says |
| FileSystemModel.FileSystem.Copy2 | screenshot_sorter_gui.py:197 | the method changes the filesystem as `AfterCopy2` says |
| Routing.RouteDir | screenshot_sorter_gui.py:163 | the route folder is the root followed by the date folder, the zone and the character |
| Routing.RouteDirsUnderDateFolder | screenshot_sorter_gui.py:163-164 | every folder that making a route folder adds lies below a date folder of the root |
| Routing.UnderDateFolderIsNoEntry | screenshot_sorter_gui.py:155-164 | a folder a run creates in the source folder is neither `Archive` nor an image name |
| Routing.ArchiveIsNoImageName | screenshot_sorter_gui.py:152-156 | `Archive` does not pass the extension filter, so the loop never processes it |
| MoveArchive.RouteAndArchive | screenshot_sorter_gui.py:163-172 | making the route folder, moving the screenshot and archiving it keep the tree valid and never remove a folder |
| MoveArchive.SortEntry | screenshot_sorter_gui.py:155-172 | one pass of the loop keeps the tree valid and never removes a folder |
| MoveArchive.SortRun | screenshot_sorter_gui.py:155-172 | the loop, stopping at the first pass that raised, keeps the tree valid and never removes a folder |
| MoveArchive.SortAndArchive | screenshot_sorter_gui.py:151-172 | when `Archive` can be made it is a folder afterwards; when it cannot, the call raises and changes nothing |
| MoveArchive.SortedEntriesMeaning | screenshot_sorter_gui.py:155-172 | the screenshots a run sorts are exactly the listed entries whose outcome is `Sorted`, with their routes, in any order |
| MoveArchive.SortRunAsClassified | screenshot_sorter_gui.py:155-172 | the loop raises exactly when some entry's route folder is blocked by a file or its archive copy would hit a folder; otherwise it logs each entry's outcome in listing order and ends in the state where exactly the `Sorted` entries have moved and been archived |
| MoveArchive.SortRunOkIff | screenshot_sorter_gui.py:155-172 | the loop raises exactly when some listed entry's route folder is blocked by a file or its archive copy would hit a folder |
| MoveArchive.SortRunReflects | screenshot_sorter_gui.py:155-172 | a loop that does not raise ends in the state where exactly the `Sorted` entries have moved and been archived |
| MoveArchive.ReflectedSortedFiles | screenshot_sorter_gui.py:166-170 | in that state each sorted screenshot has left the source folder and its contents sit at its route path and at its archive path |
| MoveArchive.ReflectedOtherFiles | screenshot_sorter_gui.py:155-172 | in that state every path no sorted screenshot touched holds what it held before the loop |
| MoveArchive.SortRunOrderIrrelevant | screenshot_sorter_gui.py:155 | two listings of the same entries give the same success and the same files |
| MoveArchive.LoopStartFacts | screenshot_sorter_gui.py:152-153 | making `Archive` raises exactly when `Archive` is a file; it changes no file and adds only the `Archive` folder |
| MoveArchive.CallReadyRun | screenshot_sorter_gui.py:151-155 | after `Archive` is made, every listed image-named entry is a file and the call is the loop over the listing |
| MoveArchive.SortAndArchiveLog | screenshot_sorter_gui.py:151-172 | the whole call raises exactly when `Archive` is a file or some entry's outcome blocks; otherwise it logs every entry's outcome in listing order |
| MoveArchive.SortAndArchivePlaced | screenshot_sorter_gui.py:151-172 | when the call does not raise, `Archive` is a folder, and each sorted screenshot has left the source folder with its contents at its route path and its archive path |
| MoveArchive.SortAndArchiveKeepsOthers | screenshot_sorter_gui.py:151-172 | when the call does not raise, every file that no sorted screenshot touched is as it was |
| MoveArchive.SortOrderIrrelevant | screenshot_sorter_gui.py:151-155 | the order `os.listdir` returns changes neither success nor the files left behind |
| MoveArchive.SortRunStops | screenshot_sorter_gui.py:155-172 | once an entry raised, the rest of the listing is not processed |
| CopyDestination.CopyEntry | screenshot_sorter_gui.py:175-198 | one pass of the loop keeps the tree valid and never removes a folder |
| CopyDestination.CopyRouted | screenshot_sorter_gui.py:183-198 | making the route folder, choosing a free name and copying keep the tree valid and never remove a folder |
| CopyDestination.CopyRun | screenshot_sorter_gui.py:175-198 | the loop, stopping at the first pass that raised, keeps the tree valid and never removes a folder |
| CopyDestination.CopyRoutedDirs | screenshot_sorter_gui.py:183-184 | copying a screenshot adds only folders on its route path, each below a date folder of the destination |
| CopyDestination.CopyEntryDirs | screenshot_sorter_gui.py:175-198 | one pass of the loop adds only folders below a date folder of the destination |
| CopyDestination.CopyRunDirs | screenshot_sorter_gui.py:175-198 | a copy run, even one that raised, adds only folders below a date folder of the destination, so none anywhere else |
| CopyDestination.RecognisedSound | screenshot_sorter_gui.py:176-181 | each screenshot a run copies is a listed entry that is recognised, with its route |
| CopyDestination.RecognisedComplete | screenshot_sorter_gui.py:176-181 | every listed entry that is recognised is among the screenshots a run copies, with its route |
| CopyDestination.CopyRoutedStep | screenshot_sorter_gui.py:183-198 | copying a screenshot raises exactly when its route folder is blocked by a file or the entry is not a file; a copy that succeeds adds one new file and changes no existing one |
| CopyDestination.CopyRoutedPlaced | screenshot_sorter_gui.py:183-198 | the copy lands in the route folder, under the file's name or a numbered variant, with the source's contents, and earlier copies keep their contents |
| CopyDestination.CopyEntryStep | screenshot_sorter_gui.py:175-198 | one pass raises exactly when the entry is not ready, logs as `CopyLogOf` says, and places one copy per recognised screenshot |
| CopyDestination.PlacedAtExtend | screenshot_sorter_gui.py:175-198 | copies already placed stay valid when the next entry's copies are added |
| CopyDestination.CopyRunFrame | screenshot_sorter_gui.py:175-198 | the loop raises exactly when some entry is not ready; every file that existed before is still there unchanged, and the only new files are the copies, all distinct, all on paths that did not exist |
| CopyDestination.CopyRunLog | screenshot_sorter_gui.py:175-198 | a run that does not raise logs a skip for each unrecognised screenshot and a copy for each recognised one, in listing order |
| CopyDestination.CopyRunPlacement | screenshot_sorter_gui.py:175-198 | a run that does not raise places exactly one copy per recognised screenshot, in its route folder, under its name or a numbered variant, with its contents |
| CopyDestination.CopyRunStops | screenshot_sorter_gui.py:175-198 | once an entry raised, the rest of the listing is not processed |
| SorterApp.CheckFolders | screenshot_sorter_gui.py:124-129 | the source error is shown exactly when the source field is empty or not a folder; the destination error exactly when the source is fine, the mode is copy and the destination field is empty or not a folder; otherwise the run goes ahead |
| SorterApp.VerdictOf | screenshot_sorter_gui.py:131-139 | success is reported exactly when the run did not raise |
| SorterApp.AcceptedCopyKeepsFiles | screenshot_sorter_gui.py:124-139 | with accepted folders, a copy run never loses or changes an existing file, adds only its copies, adds folders only below date folders of the destination, and reports success exactly when every entry is ready |
| SorterApp.AcceptedMoveVerdict | screenshot_sorter_gui.py:124-139 | with an accepted source folder, the move mode reports success exactly when `Archive` is not a file and no entry blocks |
| SorterApp.Sorter.RouteAndArchiveOne | screenshot_sorter_gui.py:163-172 | the steps change the filesystem and the log as `RouteAndArchive` says |
| SorterApp.Sorter.SortOne | screenshot_sorter_gui.py:156-172 | one pass changes the filesystem and the log as `SortEntry` says |
| SorterApp.Sorter.SortAndArchiveInSource | screenshot_sorter_gui.py:151-172 | the call lists the folder after making `Archive`, and ends with the state, log and success of `SortAndArchive` over that listing |
| SorterApp.Sorter.CopyRoutedOne | screenshot_sorter_gui.py:183-198 | the steps, including the free-name loop, change the filesystem and the log as `CopyRouted` says |
| SorterApp.Sorter.CopyOne | screenshot_sorter_gui.py:176-198 | one pass changes the filesystem and the log as `CopyEntry` says |
| SorterApp.Sorter.CopyToDestinationFolder | screenshot_sorter_gui.py:174-198 | the call ends with the state, log and success of `CopyRun` over the listing of the source folder |
| SorterApp.Sorter.StartSorting | screenshot_sorter_gui.py:116-139 | the log is cleared; a rejected folder shows its error and leaves the filesystem unchanged; otherwise the chosen mode runs and success is reported exactly when it did not raise |

## Left out

- Three behaviours of the code that the model keeps as they are, so that nothing beyond them is promised:
  - The move mode does not rename on collision: a screenshot whose route path is taken is skipped and logged as already there. Only the copy mode picks a numbered name.
  - The archive copy overwrites a file of the same name in `Archive`.
  - No exception is caught per file: one raised inside a loop ends the run and shows the error box.
- `\d` in Python matches every Unicode decimal digit. The model accepts ASCII digits only.
- `$` in Python also matches before a final newline. The model requires the name to end at the extension.
- `re.IGNORECASE` and `lower` are modelled on ASCII letters. Unicode case folding is left out.
- Paths are sequences of components with no normalisation:
  - `.` and `..` are ordinary components;
  - a zone or character containing a separator is one component;
  - Windows drive letters are left out;
  - case-insensitive filesystems are left out.
- `shutil.copy2` copies the contents only. The model does not copy timestamps or permissions.
- `shutil.move` is modelled only onto a free path inside the same tree. The move mode therefore requires every image-named entry of the source folder to be a file (`CallReady`); moving a folder is left out.
- I/O errors other than those the model derives from the tree are left out. This covers permissions, full disks and concurrent changes.
- The log is modelled as a sequence of `LogEntry` values. Its exact text, colours and scrolling are left out.
- The message boxes are modelled as `Verdict` values.
- The folder-picker dialogs and the widgets are left out; the inputs are parameters of `StartSorting`.
- The older positional filename parser and watermarking are not part of this model.
