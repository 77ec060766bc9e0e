/**
 The display helpers: `format_time` of the download manager, the integer
 branches of `format_size` in the scanner and the web application, and the
 extension-to-icon tables of `get_file_emoji` in the web application and the
 download manager. Icons are named by what they stand for rather than by
 their emoji.
 */
module Format {
  import opened Text
  import opened Paths

  // ---------------------------------------------------------------------------
  // format_time
  // ---------------------------------------------------------------------------

  /** `format_time(seconds)`: `Ns` below a minute, `Mm Ss` below an hour, `Hh Mm` after that. */
  function FormatTime(seconds: int): (r: string)
    ensures |r| >= 2
  {
    if seconds < 60 then Labelled(seconds, 's')
    else
      var minutes := seconds / 60;
      var secs := seconds % 60;
      if minutes < 60 then Labelled(minutes, 'm') + " " + Labelled(secs, 's')
      else
        var hours := minutes / 60;
        var mins := minutes % 60;
        Labelled(hours, 'h') + " " + Labelled(mins, 'm')
  }

  /** `f"{n}{unit}"`. */
  function Labelled(n: int, unit: char): string {
    IntToString(n) + [unit]
  }

  /** What a formatted duration says. */
  datatype Duration =
    | Seconds(total: int)
    | MinutesSeconds(m: nat, s: nat)
    | HoursMinutes(h: nat, m: nat)

  /** The number in front of the unit letter `unit`, as `int()` reads it. */
  function ReadNumber(p: string, unit: char): (r: Option<int>)
    ensures r.Some? ==> |p| >= 2 && p[|p| - 1] == unit
  {
    if |p| > 0 && p[|p| - 1] == unit then ParseInt(p[..|p| - 1]) else None
  }

  /** Reads a duration back from its text; `None` for text `format_time` never produces. */
  function ReadTime(t: string): Option<Duration> {
    var parts := Split(t, ' ');
    if |parts| == 1 then
      match ReadNumber(parts[0], 's')
      case Some(v) => Some(Seconds(v))
      case None => None
    else if |parts| == 2 then
      var ms := (ReadNumber(parts[0], 'm'), ReadNumber(parts[1], 's'));
      var hm := (ReadNumber(parts[0], 'h'), ReadNumber(parts[1], 'm'));
      if ms.0.Some? && ms.1.Some? && ms.0.value >= 0 && ms.1.value >= 0 then
        Some(MinutesSeconds(ms.0.value, ms.1.value))
      else if hm.0.Some? && hm.1.Some? && hm.0.value >= 0 && hm.1.value >= 0 then
        Some(HoursMinutes(hm.0.value, hm.1.value))
      else None
    else None
  }

  lemma NoSpaceInIntToString(i: int)
    ensures ' ' !in IntToString(i)
  {
    var r := IntToString(i);
    forall k | 0 <= k < |r|
      ensures r[k] != ' '
    {
      if i < 0 && k > 0 {
        assert r[k] == r[1..][k - 1];
        assert IsDigit(r[1..][k - 1]);
      } else if i >= 0 {
        assert IsDigit(r[k]);
      }
    }
  }

  /** The number of `str(n)` followed by a unit letter reads back as `n`. */
  lemma ReadNumberBack(n: int, unit: char)
    requires unit != ' '
    ensures ' ' !in Labelled(n, unit)
    ensures ReadNumber(Labelled(n, unit), unit) == Some(n)
  {
    NoSpaceInIntToString(n);
    var p := Labelled(n, unit);
    assert p[..|p| - 1] == IntToString(n);
    ParseIntToString(n);
  }

  /** Two texts free of spaces, joined by one, split back into the two. */
  lemma SplitPair(x: string, y: string)
    requires ' ' !in x && ' ' !in y
    ensures Split(x + " " + y, ' ') == [x, y]
  {
    assert x + " " + y == x + [' '] + y;
    SplitAround(x, y, ' ');
    SplitFree(x, ' ');
    SplitFree(y, ' ');
  }

  lemma FormatTimeSeconds(seconds: int)
    requires seconds < 60
    ensures ReadTime(FormatTime(seconds)) == Some(Seconds(seconds))
  {
    ReadNumberBack(seconds, 's');
    SplitFree(Labelled(seconds, 's'), ' ');
  }

  lemma FormatTimeMinutes(seconds: int)
    requires 60 <= seconds < 3600
    ensures ReadTime(FormatTime(seconds)) == Some(MinutesSeconds(seconds / 60, seconds % 60))
  {
    var minutes, secs := seconds / 60, seconds % 60;
    var x, y := Labelled(minutes, 'm'), Labelled(secs, 's');
    assert FormatTime(seconds) == x + " " + y;
    ReadNumberBack(minutes, 'm');
    ReadNumberBack(secs, 's');
    SplitPair(x, y);
    ReadMinutesSeconds(x, y, minutes, secs);
  }

  lemma ReadMinutesSeconds(x: string, y: string, m: nat, s: nat)
    requires Split(x + " " + y, ' ') == [x, y]
    requires ReadNumber(x, 'm') == Some(m) && ReadNumber(y, 's') == Some(s)
    ensures ReadTime(x + " " + y) == Some(MinutesSeconds(m, s))
  {
  }

  lemma FormatTimeHours(seconds: int)
    requires seconds >= 3600
    ensures ReadTime(FormatTime(seconds)) == Some(HoursMinutes(seconds / 60 / 60, seconds / 60 % 60))
  {
    var minutes := seconds / 60;
    var hours, mins := minutes / 60, minutes % 60;
    var x, y := Labelled(hours, 'h'), Labelled(mins, 'm');
    assert FormatTime(seconds) == x + " " + y;
    ReadNumberBack(hours, 'h');
    ReadNumberBack(mins, 'm');
    SplitPair(x, y);
    ReadHoursMinutes(x, y, hours, mins);
  }

  lemma ReadHoursMinutes(x: string, y: string, h: nat, m: nat)
    requires Split(x + " " + y, ' ') == [x, y]
    requires ReadNumber(x, 'h') == Some(h) && ReadNumber(y, 'm') == Some(m)
    ensures ReadTime(x + " " + y) == Some(HoursMinutes(h, m))
  {
    assert ReadNumber(x, 'm') == None;
  }

  /**
   The text of `format_time` states the duration: exactly below an hour, and
   truncated to the whole minute from an hour on.
   */
  lemma FormatTimeReadsBack(seconds: int)
    ensures match ReadTime(FormatTime(seconds))
            case Some(Seconds(s)) => seconds < 60 && s == seconds
            case Some(MinutesSeconds(m, s)) => 60 <= seconds < 3600 && s < 60 && m * 60 + s == seconds
            case Some(HoursMinutes(h, m)) =>
              seconds >= 3600 && m < 60 && h * 3600 + m * 60 <= seconds < h * 3600 + m * 60 + 60
            case None => false
  {
    if seconds < 60 {
      FormatTimeSeconds(seconds);
    } else if seconds < 3600 {
      FormatTimeMinutes(seconds);
    } else {
      FormatTimeHours(seconds);
      var minutes := seconds / 60;
      var h, m := minutes / 60, minutes % 60;
      assert minutes == h * 60 + m;
      assert seconds == minutes * 60 + seconds % 60;
      assert h * 3600 + m * 60 == minutes * 60;
    }
  }

  // ---------------------------------------------------------------------------
  // format_size (integer branches)
  // ---------------------------------------------------------------------------

  datatype ScaledUnit = KB | MB | GB

  /**
   A size label. `Exact` is the `"{size}B"` text; a `Scaled` label's number
   is a formatted float and is not modelled, only its unit and the number of
   decimal places it is printed with.
   */
  datatype SizeLabel = NotAvailable | Exact(text: string) | Scaled(unit: ScaledUnit, places: nat)

  function Factor(u: ScaledUnit): nat {
    match u
    case KB => 1024
    case MB => 1024 * 1024
    case GB => 1024 * 1024 * 1024
  }

  /**
   The branches both `format_size` functions share; they differ only in the
   decimal places of a GB label (`:.1f` in the scanner, `:.2f` on the web).
   */
  function SizeBranches(size: int, gbPlaces: nat): (l: SizeLabel)
    ensures l != NotAvailable
  {
    if size < 1024 then Exact(Labelled(size, 'B'))
    else if size < 1024 * 1024 then Scaled(KB, 1)
    else if size < 1024 * 1024 * 1024 then Scaled(MB, 1)
    else Scaled(GB, gbPlaces)
  }

  /** `format_size` of the scanner. */
  function FormatSize(size: int): (l: SizeLabel)
    ensures l != NotAvailable
    ensures l.Scaled? ==> l.places == 1
  {
    SizeBranches(size, 1)
  }

  /** `format_size` of the web application: a falsy size (`None` or 0) shows `N/A`. */
  function WebFormatSize(size: Option<int>): (l: SizeLabel)
    ensures l == NotAvailable <==> size.None? || size.value == 0
  {
    match size
    case None => NotAvailable
    case Some(n) => if n == 0 then NotAvailable else SizeBranches(n, 2)
  }

  /** Sizes below 1 KiB are shown exactly: the label reads back as the size itself. */
  lemma ExactSizeReadsBack(size: int)
    requires size < 1024
    ensures FormatSize(size).Exact?
    ensures ReadNumber(FormatSize(size).text, 'B') == Some(size)
  {
    ReadNumberBack(size, 'B');
  }

  /** A scaled label's unit is the largest one the size reaches, up to GB: its number is at least 1, and below 1024 except in GB. */
  lemma ScaledUnitFits(size: int)
    requires FormatSize(size).Scaled?
    ensures var u := FormatSize(size).unit;
            Factor(u) <= size && (u != GB ==> size < 1024 * Factor(u))
  {
  }

  function Rank(l: SizeLabel): nat {
    match l
    case NotAvailable => 0
    case Exact(_) => 1
    case Scaled(KB, _) => 2
    case Scaled(MB, _) => 3
    case Scaled(GB, _) => 4
  }

  /** A larger size never gets a smaller unit. */
  lemma FormatSizeMonotone(a: int, b: int)
    requires a <= b
    ensures Rank(FormatSize(a)) <= Rank(FormatSize(b))
  {
  }

  /**
   The two `format_size` functions agree below 1 GiB except that the web
   shows `N/A` for 0 where the scanner shows `0B`; from 1 GiB on both say GB,
   the web with two decimal places and the scanner with one.
   */
  lemma WebAgreesWithScanner(n: int)
    ensures n != 0 && n < 1024 * 1024 * 1024 ==> WebFormatSize(Some(n)) == FormatSize(n)
    ensures n >= 1024 * 1024 * 1024 ==> WebFormatSize(Some(n)) == Scaled(GB, 2) && FormatSize(n) == Scaled(GB, 1)
    ensures WebFormatSize(Some(0)) == NotAvailable && FormatSize(0) == Exact("0B")
  {
    assert IntToString(0) == "0";
    assert Labelled(0, 'B') == "0B";
  }

  // ---------------------------------------------------------------------------
  // get_file_emoji
  // ---------------------------------------------------------------------------

  datatype Icon = Video | Audio | Image | Archive | Document | Spreadsheet | Code | Data | Generic

  /**
   `Path(filename).suffix`: from the last `.` of the final component, when that
   dot is neither its first nor its last character.
   */
  function Suffix(filename: string): (r: string)
    ensures r == "" || (|r| >= 2 && r[0] == '.' && '.' !in r[1..])
  {
    var name := Name(filename);
    match LastIndexOf(name, '.')
    case None => ""
    case Some(i) => if 0 < i < |name| - 1 then name[i..] else ""
  }

  /** `s.lstrip(c)`. */
  function LStrip(s: string, c: char): (r: string)
    ensures |r| <= |s|
    ensures |r| > 0 ==> r[0] != c
    ensures r == s[|s| - |r|..]
    decreases |s|
  {
    if |s| > 0 && s[0] == c then
      var r := LStrip(s[1..], c);
      assert s[1..][|s| - 1 - |r|..] == s[|s| - |r|..];
      r
    else s
  }

  /** An extension table, one group of extensions per icon, consulted in this order. */
  datatype Table = Table(video: set<string>, audio: set<string>, image: set<string>, archive: set<string>,
                         document: set<string>, spreadsheet: set<string>, code: set<string>, data: set<string>)

  function Classify(t: Table, ext: string): Icon {
    if ext in t.video then Video
    else if ext in t.audio then Audio
    else if ext in t.image then Image
    else if ext in t.archive then Archive
    else if ext in t.document then Document
    else if ext in t.spreadsheet then Spreadsheet
    else if ext in t.code then Code
    else if ext in t.data then Data
    else Generic
  }

  /** The web application's table (extensions without their dot). */
  const WebTable: Table := Table(
    {"mp4", "mkv", "avi", "mov"},
    {"mp3", "flac", "wav"},
    {"jpg", "jpeg", "png", "gif"},
    {"zip", "tar", "gz", "rar"},
    {"pdf", "doc", "docx", "txt"},
    {"csv"},
    {"py", "js", "sh"},
    {"json", "xml"})

  /** The download manager's table; each of its keys is a dot followed by one of these. */
  const ManagerTable: Table := Table(
    {"mp4", "mkv", "avi", "mov", "wmv", "flv", "webm", "m4v", "mpg", "mpeg"},
    {"mp3", "flac", "wav", "aac", "ogg", "m4a", "wma", "opus"},
    {"jpg", "jpeg", "png", "gif", "bmp", "svg", "webp", "ico", "tiff"},
    {"zip", "tar", "gz", "bz2", "7z", "rar", "xz", "tgz"},
    {"pdf", "doc", "docx", "txt", "rtf", "odt"},
    {"xls", "xlsx", "csv", "ods"},
    {"js", "py", "sh", "bash", "java", "cpp", "c", "h", "go", "rs", "php", "rb"},
    {"json", "xml", "yaml", "yml", "toml", "ini", "conf"})

  /** The key `get_file_emoji` of the web application looks up: the suffix without leading dots, lower-cased. */
  function WebKey(filename: string): string {
    Lower(LStrip(Suffix(filename), '.'))
  }

  function WebFileIcon(filename: string): Icon {
    Classify(WebTable, WebKey(filename))
  }

  /** A lookup of the download manager's table by dotted key. */
  function ManagerLookup(key: string): (i: Icon)
    ensures |key| == 0 || key[0] != '.' ==> i == Generic
  {
    if |key| > 0 && key[0] == '.' then Classify(ManagerTable, key[1..]) else Generic
  }

  /** The key `get_file_emoji` of the download manager looks up: the suffix with its dot, lower-cased. */
  function ManagerKey(filename: string): string {
    Lower(Suffix(filename))
  }

  function ManagerFileIcon(filename: string): Icon {
    ManagerLookup(ManagerKey(filename))
  }

  /** A plain `stem.ext` name has suffix `.ext`. */
  lemma SuffixOfPlainName(stem: string, ext: string)
    requires |stem| > 0 && |ext| > 0
    requires '/' !in stem && '/' !in ext && '.' !in ext
    ensures Suffix(stem + "." + ext) == "." + ext
  {
    var n := stem + "." + ext;
    PlainNameParts(stem, ext);
    NameOfComponent(n);
    LastDotOf(n, |stem|);
    assert n[|stem|..] == "." + ext;
  }

  lemma PlainNameParts(stem: string, ext: string)
    requires '/' !in stem && '/' !in ext && '.' !in ext
    ensures var n := stem + "." + ext;
            && '/' !in n && n[|stem|] == '.' && n[|stem| + 1..] == ext
  {
    var n := stem + "." + ext;
    forall k | 0 <= k < |n|
      ensures n[k] != '/'
    {
      if k < |stem| { assert n[k] == stem[k]; }
      else if k > |stem| { assert n[k] == ext[k - |stem| - 1]; }
    }
  }

  /** A name without `/` is its own last component. */
  lemma NameOfComponent(n: string)
    requires IsComponent(n)
    ensures Name(n) == n
  {
    SplitFree(n, '/');
    assert Split(n, '/')[1..] == [];
    assert Components(n) == [n];
  }

  lemma LastDotOf(n: string, i: nat)
    requires i < |n| && n[i] == '.' && '.' !in n[i + 1..]
    ensures LastIndexOf(n, '.') == Some(i)
  {
  }

  lemma LStripDottedExtension(ext: string)
    requires |ext| > 0 && '.' !in ext
    ensures LStrip("." + ext, '.') == ext
  {
    assert ("." + ext)[1..] == ext;
    assert ext[0] != '.';
  }

  lemma LowerDotted(ext: string)
    ensures Lower("." + ext) == "." + Lower(ext)
  {
    assert LowerChar('.') == '.';
  }

  /**
   Both tables are consulted with the extension lower-cased: `stem.EXT` is
   looked up as `ext` by the web application and as `.ext` by the download
   manager.
   */
  lemma KeysOfPlainName(stem: string, ext: string)
    requires |stem| > 0 && |ext| > 0
    requires '/' !in stem && '/' !in ext && '.' !in ext
    ensures WebKey(stem + "." + ext) == Lower(ext)
    ensures ManagerKey(stem + "." + ext) == "." + Lower(ext)
  {
    SuffixOfPlainName(stem, ext);
    LStripDottedExtension(ext);
    LowerDotted(ext);
  }

  /** A name without a dot, or whose only dot leads it (`.bashrc`), gets the generic icon. */
  lemma NoSuffixIsGeneric(filename: string)
    requires var name := Name(filename); '.' !in name || ('.' !in name[1..] && name[0] == '.')
    ensures Suffix(filename) == ""
    ensures WebFileIcon(filename) == Generic && ManagerFileIcon(filename) == Generic
  {
    var suf := Suffix(filename);
    assert suf == "";
    assert LStrip(suf, '.') == "";
    assert Lower("") == "";
    EmptyKeyIsGeneric();
  }

  lemma EmptyKeyIsGeneric()
    ensures Classify(WebTable, "") == Generic
  {
    assert "" !in WebTable.video && "" !in WebTable.audio;
    assert "" !in WebTable.image && "" !in WebTable.archive;
    assert "" !in WebTable.document && "" !in WebTable.spreadsheet;
    assert "" !in WebTable.code && "" !in WebTable.data;
  }

  /** Every extension the web application lists under an icon, the download manager lists under the same icon. */
  lemma WebTableWithinManager()
    ensures WebTable.video <= ManagerTable.video && WebTable.audio <= ManagerTable.audio
    ensures WebTable.image <= ManagerTable.image && WebTable.archive <= ManagerTable.archive
    ensures WebTable.document <= ManagerTable.document && WebTable.spreadsheet <= ManagerTable.spreadsheet
    ensures WebTable.code <= ManagerTable.code && WebTable.data <= ManagerTable.data
  {
  }
}
