/**
 `Config` of `download-manager.py`: the bash-style `KEY=value` file the
 download manager reads at start-up, its typed getters, the five configured
 download paths, and `set_bool`, which changes one setting in memory and
 rewrites the file line by line.

 The file is its text (after Python's newline translation). The home
 directory that `os.path.expanduser` consults is a parameter.
 */
module BashConfig {
  import opened Text
  import Browse

  // ---------------------------------------------------------------------------
  // Lines of a file
  // ---------------------------------------------------------------------------

  /** `f.readlines()`: each line keeps its `\n`; only the last may lack one. */
  function ReadLines(text: string): (ls: seq<string>)
    decreases |text|
  {
    if |text| == 0 then []
    else match IndexOf(text, '\n')
      case None => [text]
      case Some(i) => [text[..i + 1]] + ReadLines(text[i + 1..])
  }

  /** `f.writelines(lines)`. */
  function Concat(ls: seq<string>): string {
    if |ls| == 0 then "" else ls[0] + Concat(ls[1..])
  }

  predicate Terminated(l: string) {
    |l| > 0 && l[|l| - 1] == '\n' && '\n' !in l[..|l| - 1]
  }

  predicate Unterminated(l: string) {
    |l| > 0 && '\n' !in l
  }

  /** What `readlines` can return: terminated lines, the last one possibly not. */
  predicate WellFormed(ls: seq<string>) {
    forall j :: 0 <= j < |ls| ==> Terminated(ls[j]) || (j == |ls| - 1 && Unterminated(ls[j]))
  }

  /** Writing back what was read reproduces the file. */
  lemma {:induction false} ConcatReadLines(text: string)
    ensures Concat(ReadLines(text)) == text
    ensures WellFormed(ReadLines(text))
    decreases |text|
  {
    if |text| > 0 {
      match IndexOf(text, '\n')
      case None =>
      case Some(i) =>
        ConcatReadLines(text[i + 1..]);
        ConsLine(text, i, ReadLines(text[i + 1..]));
    }
  }

  /** A terminated first line in front of lines that rebuild the rest of the text. */
  lemma ConsLine(text: string, i: nat, rest: seq<string>)
    requires i < |text| && text[i] == '\n' && '\n' !in text[..i]
    requires Concat(rest) == text[i + 1..] && WellFormed(rest)
    ensures Concat([text[..i + 1]] + rest) == text
    ensures WellFormed([text[..i + 1]] + rest)
  {
    var ls := [text[..i + 1]] + rest;
    assert ls[1..] == rest;
    assert text[..i + 1] + text[i + 1..] == text;
    assert text[..i + 1][..i] == text[..i];
    assert Terminated(ls[0]);
    forall j | 1 <= j < |ls|
      ensures Terminated(ls[j]) || (j == |ls| - 1 && Unterminated(ls[j]))
    {
      assert ls[j] == rest[j - 1];
    }
  }

  /** Reading what was written gives back the same lines, when they are well formed. */
  lemma {:induction false} ReadLinesConcat(ls: seq<string>)
    requires WellFormed(ls)
    ensures ReadLines(Concat(ls)) == ls
    decreases |ls|
  {
    if |ls| > 0 {
      var l := ls[0];
      assert WellFormed(ls[1..]) by {
        forall j | 0 <= j < |ls[1..]|
          ensures Terminated(ls[1..][j]) || (j == |ls[1..]| - 1 && Unterminated(ls[1..][j]))
        {
          assert ls[1..][j] == ls[j + 1];
        }
      }
      ReadLinesConcat(ls[1..]);
      var text := Concat(ls);
      assert text == l + Concat(ls[1..]);
      if Terminated(l) {
        assert '\n' in l by { assert l[|l| - 1] == '\n'; }
        IndexOfAppend(l, Concat(ls[1..]), '\n');
        assert IndexOf(l, '\n') == Some(|l| - 1) by {
          assert l[..|l| - 1] == l[..|l| - 1];
        }
        assert text[..|l|] == l;
        assert text[|l|..] == Concat(ls[1..]);
      } else {
        assert |ls| == 1;
        assert text == l;
      }
    }
  }

  // ---------------------------------------------------------------------------
  // _read_bash_config
  // ---------------------------------------------------------------------------

  datatype Setting = Setting(key: string, value: string)

  /**
   `os.path.expanduser` for `~` and `~/...`: the home directory without
   trailing slashes, or `/` when that leaves nothing. `~user` forms are
   returned unchanged, as for an unknown user.
   */
  function ExpandUser(path: string, home: string): (r: string)
    requires |path| > 0 && path[0] == '~'
  {
    if |path| == 1 || path[1] == '/' then
      var h := TrimSlashes(home);
      var joined := h + path[1..];
      if |joined| == 0 then "/" else joined
    else path
  }

  function TrimSlashes(s: string): (r: string)
    ensures |r| > 0 ==> r[|r| - 1] != '/'
    decreases |s|
  {
    if |s| > 0 && s[|s| - 1] == '/' then TrimSlashes(s[..|s| - 1]) else s
  }

  /** `value.strip().strip('"').strip("'")`, then `~` expansion. */
  function CleanValue(v: string, home: string): string {
    var w := StripChar(StripChar(Strip(v), '"'), '\'');
    if |w| > 0 && w[0] == '~' then ExpandUser(w, home) else w
  }

  /**
   A stripped line that sets something: not blank, not a `#` comment, and
   holding an `=`. The key is the text before the first `=` (not stripped on
   its right), the raw value the text after it.
   */
  function SplitSetting(s: string): (r: Option<(string, string)>)
    ensures r.Some? ==> '=' !in r.value.0 && s == r.value.0 + "=" + r.value.1
    ensures r.None? <==> |s| == 0 || s[0] == '#' || '=' !in s
  {
    if |s| == 0 || s[0] == '#' then None
    else match IndexOf(s, '=')
      case None => None
      case Some(i) => Some((s[..i], s[i + 1..]))
  }

  /** One line of the file, as `_read_bash_config` reads it. */
  function ParseLine(line: string, home: string): (r: Option<Setting>) {
    match SplitSetting(Strip(line))
    case None => None
    case Some((key, raw)) => Some(Setting(key, CleanValue(raw, home)))
  }

  /** The settings of a sequence of parsed lines: each one overwrites earlier ones of its key. */
  function Fold(ps: seq<Option<Setting>>): map<string, string>
    decreases |ps|
  {
    if |ps| == 0 then map[]
    else
      var m := Fold(ps[..|ps| - 1]);
      match ps[|ps| - 1]
      case None => m
      case Some(st) => m[st.key := st.value]
  }

  function Parsed(ls: seq<string>, home: string): (ps: seq<Option<Setting>>)
    ensures |ps| == |ls|
    ensures forall j :: 0 <= j < |ls| ==> ps[j] == ParseLine(ls[j], home)
  {
    seq(|ls|, j requires 0 <= j < |ls| => ParseLine(ls[j], home))
  }

  /** The settings of the lines of a file (`self.data`). */
  function Load(ls: seq<string>, home: string): map<string, string> {
    Fold(Parsed(ls, home))
  }

  /** The settings held by `self.data`. */
  datatype Config = Config(data: map<string, string>)

  /** `Config(config_file)`: a missing file is an error (`None`), otherwise its settings. */
  function Open(file: Option<string>, home: string): (c: Option<Config>)
    ensures c.None? <==> file.None?
  {
    match file
    case None => None
    case Some(text) => Some(Config(Load(ReadLines(text), home)))
  }

  predicate SetsKey(p: Option<Setting>, key: string) {
    p.Some? && p.value.key == key
  }

  lemma FoldAppend(ps: seq<Option<Setting>>, p: Option<Setting>)
    ensures Fold(ps + [p]) == match p case None => Fold(ps) case Some(st) => Fold(ps)[st.key := st.value]
  {
    assert (ps + [p])[..|ps|] == ps;
  }

  /** A key is settled by its last definition: later lines that do not set the key change nothing for it. */
  lemma {:induction false} LastDefinitionWins(ps: seq<Option<Setting>>, rest: seq<Option<Setting>>, key: string, value: string)
    requires |ps| > 0 && ps[|ps| - 1] == Some(Setting(key, value))
    requires forall j :: 0 <= j < |rest| ==> !SetsKey(rest[j], key)
    ensures key in Fold(ps + rest) && Fold(ps + rest)[key] == value
    decreases |rest|
  {
    if |rest| == 0 {
      assert ps + rest == ps;
      assert ps == ps[..|ps| - 1] + [ps[|ps| - 1]];
      FoldAppend(ps[..|ps| - 1], ps[|ps| - 1]);
    } else {
      var front := rest[..|rest| - 1];
      LastDefinitionWins(ps, front, key, value);
      assert ps + rest == (ps + front) + [rest[|rest| - 1]];
      FoldAppend(ps + front, rest[|rest| - 1]);
    }
  }

  /**
   Replacing the last entry that sets `key` by another that sets it changes
   only `key`, whatever the entries before it set.
   */
  lemma {:induction false} FoldReplaceLast(ps: seq<Option<Setting>>, i: nat, key: string, value: string)
    requires i < |ps| && SetsKey(ps[i], key)
    requires forall j :: i < j < |ps| ==> !SetsKey(ps[j], key)
    ensures Fold(ps[i := Some(Setting(key, value))]) == Fold(ps)[key := value]
    decreases |ps|
  {
    var n := |ps|;
    var p := Some(Setting(key, value));
    var ps' := ps[i := p];
    assert ps == ps[..n - 1] + [ps[n - 1]];
    if i == n - 1 {
      assert ps' == ps[..n - 1] + [p];
      FoldAppend(ps[..n - 1], p);
      FoldAppend(ps[..n - 1], ps[n - 1]);
    } else {
      FoldReplaceLast(ps[..n - 1], i, key, value);
      assert ps' == ps[..n - 1][i := p] + [ps[n - 1]];
      FoldAppend(ps[..n - 1][i := p], ps[n - 1]);
      FoldAppend(ps[..n - 1], ps[n - 1]);
    }
  }

  /** A key usable with `set_bool`: it starts a line, holds no `=` and no line break. */
  predicate ValidKey(k: string) {
    |k| > 0 && !IsSpace(k[0]) && k[0] != '#' && '=' !in k && '\n' !in k
  }

  /** A value that the file can hold as is, with or without double quotes. */
  predicate PlainValue(v: string) {
    '\n' !in v &&
    (|v| > 0 ==> !IsSpace(v[0]) && !IsSpace(v[|v| - 1]) && v[0] != '"' && v[|v| - 1] != '"'
                 && v[0] != '\'' && v[|v| - 1] != '\'' && v[0] != '~')
  }

  /** A `KEY=value` line, the value optionally in double quotes. */
  function Render(key: string, value: string, quoted: bool): string {
    key + "=" + Quote(value, quoted) + "\n"
  }

  function Quote(value: string, quoted: bool): string {
    if quoted then "\"" + value + "\"" else value
  }

  lemma StripCharFree(v: string, c: char)
    requires |v| > 0 ==> v[0] != c && v[|v| - 1] != c
    ensures StripChar(v, c) == v
  {
  }

  lemma StripCharQuoted(v: string, c: char)
    requires |v| > 0 ==> v[0] != c && v[|v| - 1] != c
    ensures StripChar([c] + v + [c], c) == v
  {
    var s := [c] + v + [c];
    assert s[0] == c && s[1..] == v + [c];
    var t := v + [c];
    StripCharFree(v, c);
    if |v| > 0 {
      assert t[0] == v[0] && t[|t| - 1] == c;
      assert t[..|t| - 1] == v;
      assert StripChar(t, c) == StripChar(v, c);
    } else {
      assert t == [c];
      assert StripChar(t, c) == StripChar([], c);
    }
  }

  lemma CleanPlainValue(value: string, quoted: bool, home: string)
    requires PlainValue(value)
    ensures CleanValue(Quote(value, quoted), home) == value
  {
    var body := Quote(value, quoted);
    assert |body| > 0 ==> !IsSpace(body[0]) && !IsSpace(body[|body| - 1]);
    StripNoSpaceEnds(body);
    if quoted {
      assert body == ['"'] + value + ['"'];
      StripCharQuoted(value, '"');
    } else {
      StripCharFree(value, '"');
    }
    StripCharFree(value, '\'');
  }

  lemma SplitRendered(key: string, raw: string)
    requires ValidKey(key)
    ensures SplitSetting(key + "=" + raw) == Some((key, raw))
  {
    var s := key + "=" + raw;
    assert s[0] == key[0];
    assert s[|key|] == '=';
    assert s[..|key|] == key;
    assert IndexOf(s, '=') == Some(|key|);
    assert s[|key| + 1..] == raw;
  }

  /** `_read_bash_config` reads back the line `Render` writes. */
  lemma ParseRendered(key: string, value: string, quoted: bool, home: string)
    requires ValidKey(key) && PlainValue(value)
    ensures ParseLine(Render(key, value, quoted), home) == Some(Setting(key, value))
  {
    var body := Quote(value, quoted);
    var s := key + "=" + body;
    assert Render(key, value, quoted) == s + ['\n'];
    StripAppendSpace(s, '\n');
    assert s[0] == key[0];
    assert !IsSpace(s[|s| - 1]) by {
      if |body| > 0 {
        assert s[|s| - 1] == body[|body| - 1];
      }
    }
    StripNoSpaceEnds(s);
    SplitRendered(key, body);
    CleanPlainValue(value, quoted, home);
  }

  // ---------------------------------------------------------------------------
  // Getters
  // ---------------------------------------------------------------------------

  /** `get(key, default)`. */
  function Get(c: Config, key: string, default: string): (r: string)
    ensures key in c.data ==> r == c.data[key]
    ensures key !in c.data ==> r == default
  {
    if key in c.data then c.data[key] else default
  }

  /** `get_int`: `int()` of the stored text, the default when it is missing or not a number. */
  function GetInt(c: Config, key: string, default: int): (r: int)
    ensures key in c.data && ParseInt(c.data[key]).Some? ==> r == ParseInt(c.data[key]).value
    ensures key in c.data && ParseInt(c.data[key]).None? ==> r == default
    ensures key !in c.data ==> r == default
  {
    if key in c.data then
      match ParseInt(c.data[key])
      case Some(n) => n
      case None => default
    else default
  }

  /** Python's `str()` of a boolean. */
  function PyBool(b: bool): string {
    if b then "True" else "False"
  }

  /** `get_bool`: true for `true`, `yes` or `1` in any letter case; `str(default)` stands in for a missing key. */
  function GetBool(c: Config, key: string, default: bool): bool {
    var value := Lower(if key in c.data then c.data[key] else PyBool(default));
    value == "true" || value == "yes" || value == "1"
  }

  lemma GetBoolMissing(c: Config, key: string, default: bool)
    requires key !in c.data
    ensures GetBool(c, key, default) == default
  {
    assert Lower("True") == "true";
    assert Lower("False") == "false";
  }

  /** `get_int` reads back any integer stored as `str(n)`, and falls back on unreadable text. */
  lemma GetIntReadsInteger(c: Config, key: string, n: int, default: int)
    requires key in c.data
    ensures c.data[key] == IntToString(n) ==> GetInt(c, key, default) == n
    ensures ParseInt(c.data[key]).None? ==> GetInt(c, key, default) == default
  {
    ParseIntToString(n);
  }

  /** The text `set_bool` stores. */
  function BoolText(v: bool): string {
    if v then "true" else "false"
  }

  /** The in-memory half of `set_bool`. */
  function SetBool(c: Config, key: string, v: bool): (c': Config)
    ensures c'.data.Keys == c.data.Keys + {key}
    ensures forall k :: k in c.data && k != key ==> c'.data[k] == c.data[k]
  {
    Config(c.data[key := BoolText(v)])
  }

  /** `get_bool` after `set_bool` returns the value set, whatever the default. */
  lemma GetBoolAfterSetBool(c: Config, key: string, v: bool, default: bool)
    ensures GetBool(SetBool(c, key, v), key, default) == v
  {
    assert Lower("true") == "true";
    assert Lower("false") == "false";
  }

  // ---------------------------------------------------------------------------
  // get_download_paths
  // ---------------------------------------------------------------------------

  function PathKey(i: nat): string { "DOWNLOAD_PATH_" + NatToString(i) }
  function NameKey(i: nat): string { "PATH_" + NatToString(i) + "_NAME" }

  /** The entry slot `i` contributes: none without a path; an empty name shows as `Path i`. */
  function Slot(c: Config, i: nat): (r: seq<Browse.DownloadPath>)
    ensures |r| <= 1
    ensures |r| == 1 <==> Get(c, PathKey(i), "") != ""
    ensures |r| == 1 ==> r[0].path == c.data[PathKey(i)] && |r[0].name| > 0
  {
    var path := Get(c, PathKey(i), "");
    var name := Get(c, NameKey(i), "");
    if path != "" then [Browse.DownloadPath(if name != "" then name else "Path " + NatToString(i), path)] else []
  }

  function SlotsFrom(c: Config, i: nat): (r: seq<Browse.DownloadPath>)
    requires 1 <= i <= 6
    ensures |r| <= 6 - i
    decreases 6 - i
  {
    if i == 6 then [] else Slot(c, i) + SlotsFrom(c, i + 1)
  }

  /** `get_download_paths`: slots 1 to 5 in order. */
  function GetDownloadPaths(c: Config): (r: seq<Browse.DownloadPath>)
    ensures |r| <= 5
  {
    SlotsFrom(c, 1)
  }

  /** Every listed destination is a configured, non-empty path with a non-empty name. */
  lemma {:induction false} SlotsAreConfigured(c: Config, i: nat)
    requires 1 <= i <= 6
    ensures forall j :: 0 <= j < |SlotsFrom(c, i)| ==>
              var p := SlotsFrom(c, i)[j];
              |p.name| > 0 && p.path != "" && exists n :: i <= n <= 5 && PathKey(n) in c.data && p.path == c.data[PathKey(n)]
    decreases 6 - i
  {
    if i < 6 {
      SlotsAreConfigured(c, i + 1);
      var r := SlotsFrom(c, i);
      forall j | 0 <= j < |r|
        ensures |r[j].name| > 0 && r[j].path != ""
        ensures exists n :: i <= n <= 5 && PathKey(n) in c.data && r[j].path == c.data[PathKey(n)]
      {
        if j < |Slot(c, i)| {
          assert r[j] == Slot(c, i)[j];
        } else {
          assert r[j] == SlotsFrom(c, i + 1)[j - |Slot(c, i)|];
        }
      }
    }
  }

  /** Without any configured path there is nothing to offer but the custom path. */
  lemma {:induction false} NoPathsConfigured(c: Config, i: nat)
    requires 1 <= i <= 6
    requires forall n :: i <= n <= 5 ==> Get(c, PathKey(n), "") == ""
    ensures SlotsFrom(c, i) == []
    decreases 6 - i
  {
    if i < 6 {
      NoPathsConfigured(c, i + 1);
    }
  }

  /** With all five paths configured, slot `i` is entry `i - 1`. */
  lemma AllPathsConfigured(c: Config)
    requires forall n :: 1 <= n <= 5 ==> PathKey(n) in c.data && c.data[PathKey(n)] != ""
    ensures |GetDownloadPaths(c)| == 5
    ensures forall n :: 1 <= n <= 5 ==> GetDownloadPaths(c)[n - 1].path == c.data[PathKey(n)]
  {
    var s1, s2, s3, s4, s5 := Slot(c, 1), Slot(c, 2), Slot(c, 3), Slot(c, 4), Slot(c, 5);
    assert SlotsFrom(c, 5) == s5;
    assert GetDownloadPaths(c) == s1 + s2 + s3 + s4 + s5;
  }

  // ---------------------------------------------------------------------------
  // set_bool: the file rewrite
  // ---------------------------------------------------------------------------

  /** `line.strip().startswith(key + '=')`. */
  predicate Defines(line: string, key: string) {
    StartsWith(Strip(line), key + "=")
  }

  /** None of the first `n` lines sets `key`. */
  predicate NoneDefines(ls: seq<string>, key: string, n: nat)
    requires n <= |ls|
  {
    forall j :: 0 <= j < n ==> !Defines(ls[j], key)
  }

  /** The first line that sets `key`, if any. */
  function FirstDefinition(ls: seq<string>, key: string): (r: Option<nat>)
    ensures r.Some? ==> r.value < |ls| && Defines(ls[r.value], key) && NoneDefines(ls, key, r.value)
    ensures r.None? ==> NoneDefines(ls, key, |ls|)
  {
    if |ls| == 0 then None
    else if Defines(ls[0], key) then Some(0)
    else match FirstDefinition(ls[1..], key)
      case None =>
        NoneDefinesCons(ls, key, |ls| - 1);
        None
      case Some(i) =>
        NoneDefinesCons(ls, key, i);
        Some(i + 1)
  }

  lemma NoneDefinesCons(ls: seq<string>, key: string, n: nat)
    requires n < |ls| && !Defines(ls[0], key) && NoneDefines(ls[1..], key, n)
    ensures NoneDefines(ls, key, n + 1)
  {
    forall j | 1 <= j < n + 1
      ensures !Defines(ls[j], key)
    {
      assert ls[j] == ls[1..][j - 1];
    }
  }

  /** No line from the `n`-th on sets `key`. */
  predicate NoneDefinesFrom(ls: seq<string>, key: string, n: nat)
    requires n <= |ls|
  {
    forall j :: n <= j < |ls| ==> !Defines(ls[j], key)
  }

  /** The last line that sets `key`, if any: the one the reader takes the value from. */
  function LastDefinition(ls: seq<string>, key: string): (r: Option<nat>)
    ensures r.Some? ==> r.value < |ls| && Defines(ls[r.value], key) && NoneDefinesFrom(ls, key, r.value + 1)
    ensures r.None? ==> NoneDefines(ls, key, |ls|)
    decreases |ls|
  {
    if |ls| == 0 then None
    else if Defines(ls[|ls| - 1], key) then Some(|ls| - 1)
    else
      match LastDefinition(ls[..|ls| - 1], key)
      case None =>
        NoneDefinesSnoc(ls, key);
        None
      case Some(i) =>
        NoneDefinesFromSnoc(ls, key, i);
        Some(i)
  }

  lemma NoneDefinesSnoc(ls: seq<string>, key: string)
    requires |ls| > 0 && !Defines(ls[|ls| - 1], key)
    requires NoneDefines(ls[..|ls| - 1], key, |ls| - 1)
    ensures NoneDefines(ls, key, |ls|)
  {
    forall j | 0 <= j < |ls| - 1
      ensures !Defines(ls[j], key)
    {
      assert ls[j] == ls[..|ls| - 1][j];
    }
  }

  lemma NoneDefinesFromSnoc(ls: seq<string>, key: string, i: nat)
    requires |ls| > 0 && !Defines(ls[|ls| - 1], key)
    requires i < |ls| - 1 && Defines(ls[..|ls| - 1][i], key)
    requires NoneDefinesFrom(ls[..|ls| - 1], key, i + 1)
    ensures Defines(ls[i], key) && NoneDefinesFrom(ls, key, i + 1)
  {
    assert ls[i] == ls[..|ls| - 1][i];
    forall j | i + 1 <= j < |ls| - 1
      ensures !Defines(ls[j], key)
    {
      assert ls[j] == ls[..|ls| - 1][j];
    }
  }

  /** With at most one defining line, the first and the last definition are the same line. */
  lemma FirstIsLast(ls: seq<string>, key: string)
    requires AtMostOneDefinition(ls, key)
    ensures FirstDefinition(ls, key) == LastDefinition(ls, key)
  {
    var f, l := FirstDefinition(ls, key), LastDefinition(ls, key);
    if f.Some? && l.Some? {
      assert !(l.value < f.value);
      assert !(f.value < l.value);
    }
  }

  /** The line `set_bool` writes. */
  function KeyLine(key: string, v: bool): string {
    key + "=" + BoolText(v) + "\n"
  }

  /**
   `set_bool`'s rewrite as written: the first line that sets the key is
   replaced, otherwise the new line is appended to the list of lines.
   */
  function SetBoolLines(ls: seq<string>, key: string, v: bool): (r: seq<string>)
    ensures |r| == |ls| || r == ls + [KeyLine(key, v)]
    ensures |r| == |ls| ==> exists i :: 0 <= i < |ls| && Defines(ls[i], key) && r == ls[i := KeyLine(key, v)]
                                      && forall j :: 0 <= j < i ==> !Defines(ls[j], key)
    ensures |r| == |ls| + 1 ==> forall j :: 0 <= j < |ls| ==> !Defines(ls[j], key)
  {
    match FirstDefinition(ls, key)
    case Some(i) => ls[i := KeyLine(key, v)]
    case None => ls + [KeyLine(key, v)]
  }

  /** The file after `set_bool`, as written. */
  function SaveBool(text: string, key: string, v: bool): string {
    Concat(SetBoolLines(ReadLines(text), key, v))
  }

  /**
   The discrepancy: when the file's last line `k=w` has no line break and the
   key is new, the appended line is glued to it. The file then holds the line
   `k=wKEY=true`, which reads back as `k` set to `wKEY=true` and `KEY` not set
   at all (a file holding just `A=1` and `set_bool('K', True)`, say).
   */
  lemma AppendGluesToLastLine(k: string, w: string, key: string, v: bool, home: string)
    requires ValidKey(k) && ValidKey(key) && k != key
    requires PlainValue(w) && |w| > 0
    ensures SaveBool(k + "=" + w, key, v) == k + "=" + w + KeyLine(key, v)
    ensures var c := Open(Some(SaveBool(k + "=" + w, key, v)), home).value;
            && key !in c.data
            && k in c.data && c.data[k] == w + key + "=" + BoolText(v)
  {
    GluedSave(k, w, key, v, home);
    GluedReadsBack(k, w, key, v, home);
  }

  lemma GluedSave(k: string, w: string, key: string, v: bool, home: string)
    requires ValidKey(k) && ValidKey(key) && k != key
    requires PlainValue(w) && |w| > 0
    ensures SaveBool(k + "=" + w, key, v) == k + "=" + w + KeyLine(key, v)
  {
    var line := k + "=" + w;
    assert line[0] == k[0] && line[|line| - 1] == w[|w| - 1];
    StripNoSpaceEnds(line);
    SplitRendered(k, w);
    DefinesIffSetsKey(line, key, home);
    SingleLine(line);
    NotDefinedIn(line, key);
    ConcatPair(line, KeyLine(key, v));
  }

  lemma GluedReadsBack(k: string, w: string, key: string, v: bool, home: string)
    requires ValidKey(k) && ValidKey(key) && k != key
    requires PlainValue(w) && |w| > 0
    ensures var c := Open(Some(k + "=" + w + KeyLine(key, v)), home).value;
            && key !in c.data
            && k in c.data && c.data[k] == w + key + "=" + BoolText(v)
  {
    var u := w + key + "=" + BoolText(v);
    GluedLineParses(k, w, key, v, home);
    OneLineFile(k + "=" + w + KeyLine(key, v), Setting(k, u), home);
  }

  lemma GluedLineParses(k: string, w: string, key: string, v: bool, home: string)
    requires ValidKey(k) && ValidKey(key)
    requires PlainValue(w) && |w| > 0
    ensures var t := k + "=" + w + KeyLine(key, v);
            && Terminated(t)
            && ParseLine(t, home) == Some(Setting(k, w + key + "=" + BoolText(v)))
  {
    var u := w + key + "=" + BoolText(v);
    var t := k + "=" + w + KeyLine(key, v);
    assert t == Render(k, u, false);
    assert t[..|t| - 1] == k + "=" + u;
    assert PlainValue(u) by {
      assert u[0] == w[0];
      assert u[|u| - 1] == 'e';
    }
    ParseRendered(k, u, false, home);
  }

  /** A file of one line that sets something holds exactly that setting. */
  lemma OneLineFile(t: string, st: Setting, home: string)
    requires Terminated(t) && ParseLine(t, home) == Some(st)
    ensures Open(Some(t), home).value.data == map[st.key := st.value]
  {
    SingleLine(t);
    ParsedOne(t, home);
    FoldOne(st);
  }

  lemma ParsedOne(t: string, home: string)
    ensures Parsed([t], home) == [ParseLine(t, home)]
  {
  }

  lemma FoldOne(st: Setting)
    ensures Fold([Some(st)]) == map[st.key := st.value]
  {
    FoldAppend([], Some(st));
    assert [] + [Some(st)] == [Some(st)];
  }

  lemma ConcatOne(a: string)
    ensures Concat([a]) == a
  {
    assert [a][1..] == [];
  }

  lemma ConcatPair(a: string, b: string)
    ensures Concat([a, b]) == a + b
  {
    assert [a, b][1..] == [b];
    ConcatOne(b);
  }

  /** A single line reads back as itself. */
  lemma SingleLine(t: string)
    requires Terminated(t) || Unterminated(t)
    ensures ReadLines(t) == [t]
  {
    assert WellFormed([t]);
    ConcatOne(t);
    ReadLinesConcat([t]);
  }

  lemma NotDefinedIn(line: string, key: string)
    requires !Defines(line, key)
    ensures FirstDefinition([line], key) == None
  {
    assert [line][1..] == [];
  }

  predicate EndsWithNewline(l: string) {
    |l| > 0 && l[|l| - 1] == '\n'
  }

  /** The lines with the last one given its missing line break. */
  function Terminate(ls: seq<string>): (r: seq<string>)
    ensures |r| == |ls|
    ensures forall j :: 0 <= j < |ls| - 1 ==> r[j] == ls[j]
  {
    if |ls| > 0 && !EndsWithNewline(ls[|ls| - 1]) then ls[..|ls| - 1] + [ls[|ls| - 1] + "\n"]
    else ls
  }

  /**
   `set_bool`'s rewrite corrected: the line the reader takes the key from (the
   last one that sets it) is replaced, and the line break is added before
   appending.
   */
  function SetBoolLinesFixed(ls: seq<string>, key: string, v: bool): seq<string> {
    match LastDefinition(ls, key)
    case Some(i) => ls[i := KeyLine(key, v)]
    case None => Terminate(ls) + [KeyLine(key, v)]
  }

  function SaveBoolFixed(text: string, key: string, v: bool): string {
    Concat(SetBoolLinesFixed(ReadLines(text), key, v))
  }

  /** The last character of the text is the last character of the last line. */
  lemma {:induction false} LastLineEndsText(ls: seq<string>)
    requires |ls| > 0 && |ls[|ls| - 1]| > 0
    ensures var t := Concat(ls); |t| > 0 && t[|t| - 1] == ls[|ls| - 1][|ls[|ls| - 1]| - 1]
    decreases |ls|
  {
    if |ls| > 1 {
      LastLineEndsText(ls[1..]);
      assert ls[1..][|ls| - 2] == ls[|ls| - 1];
    } else {
      assert Concat(ls) == ls[0] + "";
    }
  }

  /**
   The fix only matters for a file whose last line lacks its line break or
   that sets the key on more than one line.
   */
  lemma FixedAgreesOnTerminatedFiles(text: string, key: string, v: bool)
    requires |text| == 0 || text[|text| - 1] == '\n'
    requires AtMostOneDefinition(ReadLines(text), key)
    ensures SaveBoolFixed(text, key, v) == SaveBool(text, key, v)
  {
    var ls := ReadLines(text);
    ConcatReadLines(text);
    FirstIsLast(ls, key);
    if |ls| > 0 {
      assert |ls[|ls| - 1]| > 0;
      LastLineEndsText(ls);
      assert EndsWithNewline(ls[|ls| - 1]);
    }
    assert Terminate(ls) == ls;
  }

  /** Under a valid key, `Defines` is exactly "this line sets the key". */
  lemma DefinesIffSetsKey(line: string, key: string, home: string)
    requires ValidKey(key)
    ensures Defines(line, key) <==> SetsKey(ParseLine(line, home), key)
  {
    KeyPrefixIffKey(Strip(line), key);
  }

  /** A stripped line begins with `key=` exactly when the text before its first `=` is `key`. */
  lemma KeyPrefixIffKey(s: string, key: string)
    requires ValidKey(key)
    ensures StartsWith(s, key + "=") <==> SplitSetting(s).Some? && SplitSetting(s).value.0 == key
  {
    if StartsWith(s, key + "=") {
      assert s[..|key| + 1] == key + "=";
      var rest := s[|key| + 1..];
      assert s == key + "=" + rest;
      SplitRendered(key, rest);
    }
    if SplitSetting(s).Some? && SplitSetting(s).value.0 == key {
      var kr := SplitSetting(s).value;
      assert s == key + "=" + kr.1;
      assert s[..|key| + 1] == key + "=";
    }
  }

  predicate AtMostOneDefinition(ls: seq<string>, key: string) {
    forall a, b :: 0 <= a < b < |ls| && Defines(ls[a], key) ==> !Defines(ls[b], key)
  }

  lemma KeyLineParses(key: string, v: bool, home: string)
    requires ValidKey(key)
    ensures ParseLine(KeyLine(key, v), home) == Some(Setting(key, BoolText(v)))
  {
    assert KeyLine(key, v) == Render(key, BoolText(v), false);
    ParseRendered(key, BoolText(v), false, home);
  }

  lemma KeyLineTerminated(key: string, v: bool)
    requires '\n' !in key
    ensures Terminated(KeyLine(key, v))
  {
    var l := KeyLine(key, v);
    assert l[..|l| - 1] == key + "=" + BoolText(v);
  }

  /** After `Terminate`, every line is terminated. */
  lemma TerminateTerminates(ls: seq<string>)
    requires WellFormed(ls)
    ensures forall j :: 0 <= j < |ls| ==> Terminated(Terminate(ls)[j])
  {
    var t := Terminate(ls);
    forall j | 0 <= j < |ls|
      ensures Terminated(t[j])
    {
      if j == |ls| - 1 && !EndsWithNewline(ls[j]) {
        var last := ls[j];
        assert Unterminated(last);
        assert t[j] == last + "\n";
        assert (last + "\n")[..|last|] == last;
      } else {
        assert t[j] == ls[j];
      }
    }
  }

  lemma SetBoolLinesFixedWellFormed(ls: seq<string>, key: string, v: bool)
    requires '\n' !in key && WellFormed(ls)
    ensures WellFormed(SetBoolLinesFixed(ls, key, v))
  {
    KeyLineTerminated(key, v);
    match LastDefinition(ls, key)
    case Some(i) =>
      ReplaceWellFormed(ls, i, KeyLine(key, v));
    case None =>
      TerminateTerminates(ls);
      AppendTerminated(Terminate(ls), KeyLine(key, v));
  }

  lemma ReplaceWellFormed(ls: seq<string>, i: nat, l: string)
    requires i < |ls| && WellFormed(ls) && Terminated(l)
    ensures WellFormed(ls[i := l])
  {
  }

  lemma AppendTerminated(ls: seq<string>, l: string)
    requires forall j :: 0 <= j < |ls| ==> Terminated(ls[j])
    requires Terminated(l)
    ensures WellFormed(ls + [l])
  {
  }

  lemma ParsedReplace(ls: seq<string>, i: nat, line: string, home: string)
    requires i < |ls|
    ensures Parsed(ls[i := line], home) == Parsed(ls, home)[i := ParseLine(line, home)]
  {
  }

  /** Giving the last line its line break changes no setting. */
  lemma ParsedTerminate(ls: seq<string>, home: string)
    ensures Parsed(Terminate(ls), home) == Parsed(ls, home)
  {
    if |ls| > 0 && !EndsWithNewline(ls[|ls| - 1]) {
      var last := ls[|ls| - 1];
      StripAppendSpace(last, '\n');
      assert ParseLine(last + "\n", home) == ParseLine(last, home);
    }
  }

  lemma ParsedAppend(ls: seq<string>, l: string, home: string)
    ensures Parsed(ls + [l], home) == Parsed(ls, home) + [ParseLine(l, home)]
  {
  }

  /**
   With the fix, `set_bool` keeps the file and the memory in agreement:
   reading the rewritten file gives the settings `set_bool` leaves in memory,
   however many lines set the key and whether or not the last line ends in a
   line break.
   */
  lemma SetBoolPersists(text: string, key: string, v: bool, home: string)
    requires ValidKey(key)
    ensures Open(Some(SaveBoolFixed(text, key, v)), home)
         == Some(SetBool(Open(Some(text), home).value, key, v))
  {
    var ls := ReadLines(text);
    ConcatReadLines(text);
    SetBoolLinesFixedWellFormed(ls, key, v);
    var ls' := SetBoolLinesFixed(ls, key, v);
    ReadLinesConcat(ls');
    KeyLineParses(key, v, home);
    var ps := Parsed(ls, home);
    match LastDefinition(ls, key)
    case Some(i) =>
      ParsedReplace(ls, i, KeyLine(key, v), home);
      forall j | i < j < |ps|
        ensures !SetsKey(ps[j], key)
      {
        DefinesIffSetsKey(ls[j], key, home);
      }
      DefinesIffSetsKey(ls[i], key, home);
      FoldReplaceLast(ps, i, key, BoolText(v));
    case None =>
      ParsedAppend(Terminate(ls), KeyLine(key, v), home);
      ParsedTerminate(ls, home);
      FoldAppend(ps, Some(Setting(key, BoolText(v))));
  }

  /**
   The second discrepancy: when two lines set the key, `set_bool` rewrites the
   first and the reader still takes the second. A file holding `KEY=false`
   twice, after `set_bool(KEY, True)`, reads back with `KEY` false while the
   memory says true.
   */
  lemma RewriteShadowedBySecondDefinition(key: string, v: bool, home: string)
    requires ValidKey(key)
    ensures SaveBool(Twice(KeyLine(key, !v)), key, v) == KeyLine(key, v) + KeyLine(key, !v)
    ensures var c := Open(Some(SaveBool(Twice(KeyLine(key, !v)), key, v)), home).value;
            key in c.data && c.data[key] == BoolText(!v)
    ensures SetBool(Open(Some(Twice(KeyLine(key, !v))), home).value, key, v).data[key] == BoolText(v)
  {
    var before, after := KeyLine(key, !v), KeyLine(key, v);
    KeyLineTerminated(key, v);
    KeyLineTerminated(key, !v);
    KeyLineParses(key, !v, home);
    DefinesIffSetsKey(before, key, home);
    ShadowedSave(before, before, key, v);
    ShadowedLoad(SaveBool(Twice(before), key, v), after, before, key, BoolText(!v), home);
  }

  /** A line written twice. */
  function Twice(l: string): string {
    l + l
  }

  /** Two terminated lines, the first setting the key: `set_bool` rewrites the first only. */
  lemma ShadowedSave(a: string, b: string, key: string, v: bool)
    requires Terminated(a) && Terminated(b) && Defines(a, key)
    ensures SaveBool(a + b, key, v) == KeyLine(key, v) + b
  {
    assert WellFormed([a, b]);
    ConcatPair(a, b);
    ReadLinesConcat([a, b]);
    assert FirstDefinition([a, b], key) == Some(0);
    assert [a, b][0 := KeyLine(key, v)] == [KeyLine(key, v), b];
    ConcatPair(KeyLine(key, v), b);
  }

  /** A file of two terminated lines holds, for the key the second sets, the second's value. */
  lemma ShadowedLoad(text: string, a: string, b: string, key: string, value: string, home: string)
    requires text == a + b && Terminated(a) && Terminated(b)
    requires ParseLine(b, home) == Some(Setting(key, value))
    ensures key in Open(Some(text), home).value.data && Open(Some(text), home).value.data[key] == value
  {
    assert WellFormed([a, b]);
    ConcatPair(a, b);
    ReadLinesConcat([a, b]);
    PairLoad(a, b, key, value, home);
  }

  lemma PairLoad(a: string, b: string, key: string, value: string, home: string)
    requires ParseLine(b, home) == Some(Setting(key, value))
    ensures key in Load([a, b], home) && Load([a, b], home)[key] == value
  {
    var ps := Parsed([a, b], home);
    assert ps[|ps| - 1] == Some(Setting(key, value));
    assert ps + [] == ps;
    LastDefinitionWins(ps, [], key, value);
  }
}
