/**
  The filename parser `extract_info` (screenshot_sorter_gui.py, lines 140-149).

  The regular expression
      ^(\d{4}-\d{2}-\d{2})_\d{2}-\d{2}-\d{2}\.\d{3}-(.+)-([^-]+)\.(?:png|jpg|jpeg)$
  matched case-insensitively is written out as an explicit decomposition of
  the name into its fields (`Parts`, `WellFormed`, `Assemble`); `Decompose`
  computes the decomposition and is proved to agree with it in both
  directions.
 */
module FilenameParser {
  import opened Wrappers
  import opened Strings

  /** Each 'd' of a mask stands for one digit; every other character must appear literally. */
  const DateMask := "dddd-dd-dd"
  const TimeMask := "dd-dd-dd.ddd"
  const DateFolderMask := "dd-dd-dddd"

  /** Length of `YYYY-MM-DD_HH-MM-SS.mmm-`, the fixed prefix before the zone. */
  const StampLength := 24

  predicate FitsMask(s: string, mask: string) {
    |s| == |mask| && forall i :: 0 <= i < |s| ==> if mask[i] == 'd' then IsDigit(s[i]) else s[i] == mask[i]
  }

  /** The alternatives `png|jpg|jpeg`, compared case-insensitively. */
  predicate IsImageExt(ext: string) {
    Lower(ext) in {"png", "jpg", "jpeg"}
  }

  /** The filter of line 156: `file.lower().endswith((".png", ".jpg", ".jpeg"))`. */
  predicate IsImageName(name: string) {
    var l := Lower(name);
    EndsWith(l, ".png") || EndsWith(l, ".jpg") || EndsWith(l, ".jpeg")
  }

  /** The fields of `<date>_<time>-<zone>-<character>.<ext>`. */
  datatype Parts = Parts(date: string, time: string, zone: string, character: string, ext: string)

  /** What the regular expression demands of each field. */
  predicate WellFormed(p: Parts) {
    && FitsMask(p.date, DateMask)
    && FitsMask(p.time, TimeMask)
    && p.zone != [] && '\n' !in p.zone          // (.+): `.` does not match a newline
    && p.character != [] && '-' !in p.character  // ([^-]+)
    && IsImageExt(p.ext)
  }

  function Assemble(p: Parts): string {
    p.date + "_" + p.time + "-" + p.zone + "-" + p.character + "." + p.ext
  }

  /** An assembled name is its stamp followed by its tail. */
  lemma AssembleSplit(p: Parts)
    ensures Assemble(p) == (p.date + "_" + p.time + "-") + (p.zone + "-" + p.character + "." + p.ext)
  {
    var stamp := p.date + "_" + p.time + "-";
    assert Assemble(p) == stamp + p.zone + "-" + p.character + "." + p.ext;
    assert stamp + p.zone + "-" + p.character + "." + p.ext == stamp + (p.zone + "-" + p.character + "." + p.ext);
  }

  /** Splits `body.<ext>` with `ext` one of the accepted extensions. */
  function SplitImageExt(s: string): (r: Option<(string, string)>)
    ensures r.Some? ==> s == r.value.0 + "." + r.value.1 && IsImageExt(r.value.1)
  {
    if |s| >= 4 && s[|s| - 4] == '.' && IsImageExt(s[|s| - 3..]) then
      assert s == s[..|s| - 4] + "." + s[|s| - 3..];
      Some((s[..|s| - 4], s[|s| - 3..]))
    else if |s| >= 5 && s[|s| - 5] == '.' && IsImageExt(s[|s| - 4..]) then
      assert s == s[..|s| - 5] + "." + s[|s| - 4..];
      Some((s[..|s| - 5], s[|s| - 4..]))
    else None
  }

  lemma SplitImageExtAssembled(body: string, ext: string)
    requires IsImageExt(ext)
    ensures SplitImageExt(body + "." + ext) == Some((body, ext))
  {
    var s := body + "." + ext;
    assert |ext| == 3 || |ext| == 4;
    if |ext| == 3 {
      assert s[|s| - 3..] == ext && s[..|s| - 4] == body;
    } else {
      assert Lower(ext)[0] == 'j';
      assert s[|s| - 4] == ext[0];
      assert s[|s| - 4..] == ext && s[..|s| - 5] == body;
    }
  }

  /** The fixed prefix `YYYY-MM-DD_HH-MM-SS.mmm-`, split into its date and time fields. */
  function ParseStamp(stamp: string): (r: Option<(string, string)>)
    requires |stamp| == StampLength
    ensures r.Some? ==> stamp == r.value.0 + "_" + r.value.1 + "-"
    ensures r.Some? ==> FitsMask(r.value.0, DateMask) && FitsMask(r.value.1, TimeMask)
  {
    var date, time := stamp[..10], stamp[11..23];
    if FitsMask(date, DateMask) && stamp[10] == '_' && FitsMask(time, TimeMask) && stamp[23] == '-' then
      assert stamp == date + "_" + time + "-";
      Some((date, time))
    else None
  }

  lemma ParseStampComplete(date: string, time: string)
    requires FitsMask(date, DateMask) && FitsMask(time, TimeMask)
    ensures ParseStamp(date + "_" + time + "-") == Some((date, time))
  {
    var stamp := date + "_" + time + "-";
    assert stamp[..10] == date && stamp[11..23] == time;
  }

  /** The part after the prefix, `<zone>-<character>.<ext>`, split at the last `-`. */
  function ParseTail(tail: string): (r: Option<(string, string, string)>)
    ensures r.Some? ==> tail == r.value.0 + "-" + r.value.1 + "." + r.value.2
    ensures r.Some? ==> r.value.0 != [] && '\n' !in r.value.0
    ensures r.Some? ==> r.value.1 != [] && '-' !in r.value.1 && IsImageExt(r.value.2)
  {
    match SplitImageExt(tail)
    case None => None
    case Some((body, ext)) =>
      match LastIndexOf(body, '-')
      case None => None
      case Some(k) =>
        var zone, character := body[..k], body[k + 1..];
        if zone != [] && '\n' !in zone && character != [] then
          assert body == zone + "-" + character;
          Some((zone, character, ext))
        else None
  }

  lemma ParseTailComplete(zone: string, character: string, ext: string)
    requires zone != [] && '\n' !in zone && character != [] && '-' !in character && IsImageExt(ext)
    ensures ParseTail(zone + "-" + character + "." + ext) == Some((zone, character, ext))
  {
    var body := zone + "-" + character;
    assert zone + "-" + character + "." + ext == body + "." + ext;
    SplitImageExtAssembled(body, ext);
    LastIndexOfJoined(zone, '-', character);
    assert body[..|zone|] == zone && body[|zone| + 1..] == character;
  }

  /** The match of `extract_info`'s pattern, or `None` when the name does not match. */
  function Decompose(name: string): (r: Option<Parts>)
    ensures r.Some? ==> WellFormed(r.value) && Assemble(r.value) == name
  {
    if |name| < StampLength then None
    else
      match ParseStamp(name[..StampLength])
      case None => None
      case Some((date, time)) =>
        match ParseTail(name[StampLength..])
        case None => None
        case Some((zone, character, ext)) =>
          assert name == name[..StampLength] + name[StampLength..];
          AssembleSplit(Parts(date, time, zone, character, ext));
          Some(Parts(date, time, zone, character, ext))
  }

  /** Every well-formed decomposition is found, so the regular expression and `Decompose` agree. */
  lemma DecomposeComplete(p: Parts)
    requires WellFormed(p)
    ensures Decompose(Assemble(p)) == Some(p)
  {
    var stamp := p.date + "_" + p.time + "-";
    var tail := p.zone + "-" + p.character + "." + p.ext;
    var name := Assemble(p);
    assert name == stamp + tail;
    assert |stamp| == StampLength;
    assert name[..StampLength] == stamp && name[StampLength..] == tail;
    ParseStampComplete(p.date, p.time);
    ParseTailComplete(p.zone, p.character, p.ext);
  }

  /** A name is rejected exactly when no well-formed decomposition assembles to it. */
  lemma DecomposeNoneIff(name: string)
    ensures Decompose(name).None? <==> forall p :: WellFormed(p) ==> Assemble(p) != name
  {
    if Decompose(name).None? {
      forall p | WellFormed(p) ensures Assemble(p) != name {
        DecomposeComplete(p);
      }
    }
  }

  /** The decomposition of a name is unique. */
  lemma DecompositionUnique(p: Parts, q: Parts)
    requires WellFormed(p) && WellFormed(q) && Assemble(p) == Assemble(q)
    ensures p == q
  {
    DecomposeComplete(p);
    DecomposeComplete(q);
  }

  lemma AssembleStartsWithDate(p: Parts)
    requires |p.date| == 10
    ensures Assemble(p)[..10] == p.date
  {
    var rest := "_" + p.time + "-" + p.zone + "-" + p.character + "." + p.ext;
    assert Assemble(p) == p.date + rest;
  }

  // ---------------------------------------------------------------- the date folder

  /** `"-".join(date_str.split("-")[::-1])`. */
  function DateFolder(date: string): string {
    Join(Reverse(Split(date, '-')), '-')
  }

  lemma JoinThree(a: string, b: string, c: string, sep: char)
    ensures Join([a, b, c], sep) == a + [sep] + b + [sep] + c
  {
    assert [a, b, c][1..] == [b, c];
    assert [b, c][1..] == [c];
    assert Join([c], sep) == c;
    assert Join([b, c], sep) == b + [sep] + c;
    assert Join([a, b, c], sep) == a + [sep] + (b + [sep] + c);
  }

  /** The digit groups of a `YYYY-MM-DD` date are what `split("-")` returns. */
  lemma DateGroups(date: string)
    requires FitsMask(date, DateMask)
    ensures Split(date, '-') == [date[..4], date[5..7], date[8..10]]
  {
    var y, m, d := date[..4], date[5..7], date[8..10];
    assert forall i :: 0 <= i < 10 ==> if DateMask[i] == 'd' then IsDigit(date[i]) else date[i] == DateMask[i];
    assert '-' !in y && '-' !in m && '-' !in d;
    assert date == y + "-" + m + "-" + d;
    JoinThree(y, m, d, '-');
    SplitJoin([y, m, d], '-');
  }

  /** Day, month and year groups of digits, joined by dashes, fit the `dd-dd-dddd` form. */
  lemma DayMonthYearFits(date: string)
    requires FitsMask(date, DateMask)
    ensures FitsMask(date[8..10] + "-" + date[5..7] + "-" + date[..4], DateFolderMask)
  {
    var f := date[8..10] + "-" + date[5..7] + "-" + date[..4];
    assert forall i :: 0 <= i < 10 ==> if DateMask[i] == 'd' then IsDigit(date[i]) else date[i] == DateMask[i];
    assert f[0] == date[8] && f[1] == date[9] && f[3] == date[5] && f[4] == date[6];
    assert f[6] == date[0] && f[7] == date[1] && f[8] == date[2] && f[9] == date[3];
  }

  /** For a `YYYY-MM-DD` date the folder is `DD-MM-YYYY`: the same digit groups, reversed. */
  lemma DateFolderReversed(date: string)
    requires FitsMask(date, DateMask)
    ensures DateFolder(date) == date[8..10] + "-" + date[5..7] + "-" + date[..4]
    ensures FitsMask(DateFolder(date), DateFolderMask)
  {
    var y, m, d := date[..4], date[5..7], date[8..10];
    DateGroups(date);
    assert Reverse([y, m, d]) == [d, m, y];
    JoinThree(d, m, y, '-');
    DayMonthYearFits(date);
  }

  // ---------------------------------------------------------------- extract_info

  /** The triple `(date_folder_name, location, character)` of a matching name. */
  datatype ScreenshotInfo = ScreenshotInfo(dateFolder: string, zone: string, character: string)

  /** `extract_info`: the date folder `DD-MM-YYYY` and the stripped zone and character, or `None`. */
  function ExtractInfo(name: string): (r: Option<ScreenshotInfo>)
    ensures r.Some? ==> |name| > StampLength
    ensures r.Some? ==> r.value.dateFolder == name[8..10] + "-" + name[5..7] + "-" + name[..4]
    ensures r.Some? ==> FitsMask(r.value.dateFolder, DateFolderMask)
    ensures r.Some? ==> IsStripped(r.value.zone) && IsStripped(r.value.character) && '-' !in r.value.character
    ensures r.Some? <==> Decompose(name).Some?
  {
    match Decompose(name)
    case None => None
    case Some(p) =>
      DateFolderReversed(p.date);
      AssembleStartsWithDate(p);
      assert name[8..10] == p.date[8..10] && name[5..7] == p.date[5..7] && name[..4] == p.date[..4];
      Some(ScreenshotInfo(DateFolder(p.date), Strip(p.zone), Strip(p.character)))
  }

  /** A name built from well-formed fields parses back to its date, trimmed zone and character. */
  lemma ExtractInfoRoundTrip(p: Parts)
    requires WellFormed(p)
    ensures ExtractInfo(Assemble(p)) ==
      Some(ScreenshotInfo(p.date[8..10] + "-" + p.date[5..7] + "-" + p.date[..4], Strip(p.zone), Strip(p.character)))
  {
    DecomposeComplete(p);
    DateFolderReversed(p.date);
  }

  /** A name that does not match the pattern yields `(None, None, None)`. */
  lemma ExtractInfoNoMatch(name: string)
    ensures ExtractInfo(name).None? <==> forall p :: WellFormed(p) ==> Assemble(p) != name
  {
    DecomposeNoneIff(name);
  }

  /** A name ending in `.<ext>`, for an accepted extension, passes the filter of line 156. */
  lemma ExtNameIsImageName(name: string, ext: string)
    requires IsImageExt(ext) && EndsWith(name, "." + ext)
    ensures IsImageName(name)
  {
    var k := |name| - |ext| - 1;
    LowerSuffix(name, k);
    LowerAppend(".", ext);
    assert Lower(".") == ".";
    var l := Lower(name);
    assert l[k..] == "." + Lower(ext);
    if Lower(ext) == "png" {
      assert EndsWith(l, ".png");
    } else if Lower(ext) == "jpg" {
      assert EndsWith(l, ".jpg");
    } else {
      assert EndsWith(l, ".jpeg");
    }
  }

  /** Every name the pattern accepts also passes the extension filter of line 156. */
  lemma MatchedNameIsImageName(name: string)
    requires ExtractInfo(name).Some?
    ensures IsImageName(name)
  {
    var p := Decompose(name).value;
    AssembleEndsWithExt(p);
    ExtNameIsImageName(name, p.ext);
  }

  lemma AssembleEndsWithExt(p: Parts)
    ensures EndsWith(Assemble(p), "." + p.ext)
  {
    var prefix := p.date + "_" + p.time + "-" + p.zone + "-" + p.character;
    assert Assemble(p) == prefix + ("." + p.ext);
  }

  /** Any other extension is rejected. */
  lemma WrongExtensionRejected(name: string)
    requires !IsImageName(name)
    ensures ExtractInfo(name) == None
  {
    if ExtractInfo(name).Some? {
      MatchedNameIsImageName(name);
    }
  }

  /**
    The test of lines 159-162: a name is routed when it matched and neither the
    stripped zone nor the stripped character is empty.
   */
  function Recognize(name: string): (r: Option<ScreenshotInfo>)
    ensures r.Some? ==> IsImageName(name) && ExtractInfo(name) == r
    ensures r.Some? ==> r.value.zone != [] && r.value.character != [] && FitsMask(r.value.dateFolder, DateFolderMask)
    ensures r.None? ==> ExtractInfo(name).None? || ExtractInfo(name).value.zone == [] || ExtractInfo(name).value.character == []
  {
    match ExtractInfo(name)
    case None => None
    case Some(info) =>
      if info.dateFolder != [] && info.zone != [] && info.character != [] then
        MatchedNameIsImageName(name);
        Some(info)
      else None
  }

  /** A `DD-MM-YYYY` folder name is neither an image name nor `Archive`. */
  lemma DateFolderIsNoImageName(d: string)
    requires FitsMask(d, DateFolderMask)
    ensures !IsImageName(d) && d != "Archive"
  {
    assert IsDigit(d[9]);
    var l := Lower(d);
    assert l[9] == d[9];
  }

  /** A sample screenshot name, taken in Limsa Lominsa. */
  lemma LimsaLominsaExample(date: string, time: string, zone: string, character: string)
    requires date == "2024-03-07" && time == "18-22-01.123"
    requires zone == "Limsa Lominsa" && character == "Warrior of Light"
    ensures ExtractInfo(date + "_" + time + "-" + zone + "-" + character + ".png")
         == Some(ScreenshotInfo("07-03-2024", zone, character))
  {
    var p := Parts(date, time, zone, character, "png");
    LimsaLominsaParts(date, time, zone, character);
    assert Assemble(p) == date + "_" + time + "-" + zone + "-" + character + ".png";
    ExtractInfoRoundTrip(p);
  }

  /** The parts of the example are well formed, already stripped, and their date reads `07-03-2024` reversed. */
  lemma LimsaLominsaParts(date: string, time: string, zone: string, character: string)
    requires date == "2024-03-07" && time == "18-22-01.123"
    requires zone == "Limsa Lominsa" && character == "Warrior of Light"
    ensures WellFormed(Parts(date, time, zone, character, "png"))
    ensures Strip(zone) == zone && Strip(character) == character
    ensures date[8..10] + "-" + date[5..7] + "-" + date[..4] == "07-03-2024"
  {
    assert FitsMask(date, DateMask);
    assert FitsMask(time, TimeMask);
    assert Lower("png") == "png";
    assert IsStripped(zone) && IsStripped(character);
    assert date[8..10] + "-" + date[5..7] + "-" + date[..4] == "07-03-2024";
  }
}
