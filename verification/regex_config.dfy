/**
 The second configuration reader: `load_config` in `remote_scanner.py` and
 in `web_app.py`, which read the same bash-style file with the regular
 expression `([A-Z_]+)="?([^"]*)"?` anchored at the start of each stripped
 line, and the web interface's `get_download_paths`.

 The expression is decided without backtracking: the greedy key run can only
 be followed by `=` at its full length (after a shorter prefix comes another
 key character), and everything after the `=` is optional. So a line matches
 exactly when a non-empty run of key characters is followed by `=`, and the
 value is what follows, minus one opening quote, up to the next quote.
 */
module RegexConfig {
  import opened Text
  import BashConfig
  import Browse

  /** The key character class: `[A-Z_]` as written, and `[A-Z0-9_]`. */
  datatype KeyPattern = UpperUnderscore | UpperDigitUnderscore

  predicate KeyChar(p: KeyPattern, c: char) {
    ('A' <= c <= 'Z') || c == '_' || (p == UpperDigitUnderscore && IsDigit(c))
  }

  predicate AllKeyChars(p: KeyPattern, s: string) {
    forall i :: 0 <= i < |s| ==> KeyChar(p, s[i])
  }

  /** The length of the greedy `[...]+` run at the start of `s` (0 when there is none). */
  function KeyRun(p: KeyPattern, s: string): (n: nat)
    ensures n <= |s| && AllKeyChars(p, s[..n])
    ensures n < |s| ==> !KeyChar(p, s[n])
    decreases |s|
  {
    if |s| == 0 || !KeyChar(p, s[0]) then 0
    else
      var m := KeyRun(p, s[1..]);
      assert s[..m + 1] == [s[0]] + s[1..][..m];
      1 + m
  }

  /** A `=` preceded only by key characters is where the greedy run stops. */
  lemma KeyRunAt(p: KeyPattern, s: string, i: nat)
    requires i < |s| && s[i] == '=' && AllKeyChars(p, s[..i])
    ensures KeyRun(p, s) == i
  {
  }

  /** `"?([^"]*)"?` on the text after the `=`: one opening quote dropped, the value runs to the next quote. */
  function QuotedValue(rest: string): (v: string)
    ensures '"' !in v
    ensures var body := if |rest| > 0 && rest[0] == '"' then rest[1..] else rest;
            |v| <= |body| && v == body[..|v|] && (|v| == |body| || body[|v|] == '"')
  {
    var body := if |rest| > 0 && rest[0] == '"' then rest[1..] else rest;
    match IndexOf(body, '"')
    case None => body
    case Some(j) => body[..j]
  }

  /** `re.match(r'([A-Z_]+)="?([^"]*)"?', line)` and its two groups. */
  function MatchLine(p: KeyPattern, s: string): (r: Option<BashConfig.Setting>)
    ensures r.Some? <==> exists i :: 0 < i < |s| && s[i] == '=' && AllKeyChars(p, s[..i])
    ensures r.Some? ==> var k := r.value.key;
              && 0 < |k| < |s| && s[..|k|] == k && s[|k|] == '=' && AllKeyChars(p, k)
              && r.value.value == QuotedValue(s[|k| + 1..])
  {
    var n := KeyRun(p, s);
    if n == 0 || n == |s| || s[n] != '=' then
      assert forall i :: 0 < i < |s| && s[i] == '=' && AllKeyChars(p, s[..i]) ==> false by {
        forall i | 0 < i < |s| && s[i] == '=' && AllKeyChars(p, s[..i])
          ensures false
        {
          KeyRunAt(p, s, i);
        }
      }
      None
    else Some(BashConfig.Setting(s[..n], QuotedValue(s[n + 1..])))
  }

  /** One line of the file: stripped; blank and `#` lines are skipped before matching. */
  function ReadLine(p: KeyPattern, line: string): (r: Option<BashConfig.Setting>)
    ensures r.Some? ==> |r.value.key| > 0 && AllKeyChars(p, r.value.key) && '"' !in r.value.value
  {
    var s := Strip(line);
    if |s| == 0 || s[0] == '#' then None else MatchLine(p, s)
  }

  function ReadAll(p: KeyPattern, ls: seq<string>): (ps: seq<Option<BashConfig.Setting>>)
    ensures |ps| == |ls|
    ensures forall j :: 0 <= j < |ls| ==> ps[j] == ReadLine(p, ls[j])
  {
    seq(|ls|, j requires 0 <= j < |ls| => ReadLine(p, ls[j]))
  }

  /** The settings of a file's text; a later line overwrites an earlier one of its key. */
  function Load(p: KeyPattern, text: string): map<string, string> {
    BashConfig.Fold(ReadAll(p, BashConfig.ReadLines(text)))
  }

  /** A setting the reader can produce: a key of key characters, a value without quotes. */
  predicate Shaped(p: KeyPattern, o: Option<BashConfig.Setting>) {
    o.Some? ==> |o.value.key| > 0 && AllKeyChars(p, o.value.key) && '"' !in o.value.value
  }

  /** Folding shaped settings gives a map of shaped entries. */
  lemma {:induction false} FoldShape(p: KeyPattern, ps: seq<Option<BashConfig.Setting>>)
    requires forall j :: 0 <= j < |ps| ==> Shaped(p, ps[j])
    ensures forall k :: k in BashConfig.Fold(ps) ==> |k| > 0 && AllKeyChars(p, k) && '"' !in BashConfig.Fold(ps)[k]
    decreases |ps|
  {
    if |ps| > 0 {
      var pre := ps[..|ps| - 1];
      assert forall j :: 0 <= j < |pre| ==> pre[j] == ps[j];
      FoldShape(p, pre);
      assert Shaped(p, ps[|ps| - 1]);
    }
  }

  /** Every key the reader stores is a run of key characters, every value free of quotes. */
  lemma LoadShape(p: KeyPattern, text: string)
    ensures forall k :: k in Load(p, text) ==> |k| > 0 && AllKeyChars(p, k) && '"' !in Load(p, text)[k]
  {
    var ps := ReadAll(p, BashConfig.ReadLines(text));
    assert forall j :: 0 <= j < |ps| ==> Shaped(p, ps[j]);
    FoldShape(p, ps);
  }

  // ---------------------------------------------------------------------------
  // web_app.load_config and remote_scanner's RemoteScanner.load_config
  // ---------------------------------------------------------------------------

  /** `web_app.load_config`: a missing file gives no settings. */
  function WebLoadConfig(file: Option<string>): (m: map<string, string>)
    ensures file.None? ==> m == map[]
    ensures forall k :: k in m ==> |k| > 0 && AllKeyChars(UpperUnderscore, k) && '"' !in m[k]
  {
    match file
    case None => map[]
    case Some(text) =>
      LoadShape(UpperUnderscore, text);
      Load(UpperUnderscore, text)
  }

  /** The scanner's verdict: the settings, or the reason it exits with status 1. */
  datatype ScanConfig = Loaded(data: map<string, string>) | FileMissing | MissingSetting(key: string)

  /** The settings the scanner cannot start without, in the order it checks them. */
  const Required: seq<string> := ["REMOTE_USER", "REMOTE_HOST", "SSH_KEY_PATH", "REMOTE_BASE_PATH"]

  /** The first of `keys` that `m` lacks. */
  function FirstMissing(m: map<string, string>, keys: seq<string>): (r: Option<string>)
    ensures r.None? <==> forall i :: 0 <= i < |keys| ==> keys[i] in m
    ensures r.Some? ==> exists i :: 0 <= i < |keys| && keys[i] == r.value && r.value !in m
                                    && forall j :: 0 <= j < i ==> keys[j] in m
  {
    if |keys| == 0 then None
    else if keys[0] !in m then Some(keys[0])
    else
      var r := FirstMissing(m, keys[1..]);
      if r.Some? then
        assert forall j :: 1 <= j < |keys| ==> keys[j] == keys[1..][j - 1];
        r
      else
        assert forall i :: 1 <= i < |keys| ==> keys[i] == keys[1..][i - 1];
        r
  }

  /** `RemoteScanner.load_config`: the file must exist and set every required key. */
  function ScannerLoadConfig(file: Option<string>): (r: ScanConfig)
    ensures r == FileMissing <==> file.None?
    ensures r.Loaded? <==> file.Some? && forall i :: 0 <= i < |Required| ==> Required[i] in Load(UpperUnderscore, file.value)
    ensures r.Loaded? ==> r.data == WebLoadConfig(file)
    ensures r.MissingSetting? ==> r.key in Required && r.key !in WebLoadConfig(file)
    ensures r.MissingSetting? ==> exists i :: 0 <= i < |Required| && Required[i] == r.key
                                    && forall j :: 0 <= j < i ==> Required[j] in WebLoadConfig(file)
  {
    match file
    case None => FileMissing
    case Some(text) =>
      var m := Load(UpperUnderscore, text);
      match FirstMissing(m, Required)
      case Some(k) => MissingSetting(k)
      case None => Loaded(m)
  }

  // ---------------------------------------------------------------------------
  // Reading back what a bash config holds
  // ---------------------------------------------------------------------------

  /** A value the pattern reads back from `KEY=value` or `KEY="value"`. */
  predicate RegexValue(v: string) {
    '"' !in v && '\n' !in v && (|v| > 0 ==> !IsSpace(v[|v| - 1]))
  }

  lemma QuotedValueOf(v: string, quoted: bool)
    requires '"' !in v
    ensures QuotedValue(BashConfig.Quote(v, quoted)) == v
  {
    if quoted {
      var body := v + "\"";
      assert BashConfig.Quote(v, quoted)[1..] == body;
      assert body[..|v|] == v;
    } else if |v| > 0 {
      assert v[0] != '"';
    }
  }

  /** Stripping a rendered line leaves `KEY=value`, quotes included. */
  lemma StripRendered(key: string, v: string, quoted: bool)
    requires |key| > 0 && !IsSpace(key[0]) && RegexValue(v)
    ensures Strip(BashConfig.Render(key, v, quoted)) == key + "=" + BashConfig.Quote(v, quoted)
  {
    var q := BashConfig.Quote(v, quoted);
    var s := key + "=" + q;
    assert BashConfig.Render(key, v, quoted) == s + ['\n'];
    StripAppendSpace(s, '\n');
    assert s[0] == key[0];
    assert !IsSpace(s[|s| - 1]) by {
      if |q| > 0 {
        assert s[|s| - 1] == q[|q| - 1];
      }
    }
    StripNoSpaceEnds(s);
  }

  /** The pattern splits `KEY=rest` at the `=` when the key has only key characters. */
  lemma MatchKeyed(p: KeyPattern, key: string, rest: string)
    requires |key| > 0 && AllKeyChars(p, key)
    ensures MatchLine(p, key + "=" + rest) == Some(BashConfig.Setting(key, QuotedValue(rest)))
  {
    var s := key + "=" + rest;
    assert s[..|key|] == key;
    KeyRunAt(p, s, |key|);
    assert s[|key| + 1..] == rest;
  }

  /** A rendered `KEY=value` line is read back, quoted or not, when the key has only key characters. */
  lemma ReadRendered(p: KeyPattern, key: string, v: string, quoted: bool)
    requires |key| > 0 && AllKeyChars(p, key) && RegexValue(v)
    ensures ReadLine(p, BashConfig.Render(key, v, quoted)) == Some(BashConfig.Setting(key, v))
  {
    var q := BashConfig.Quote(v, quoted);
    StripRendered(key, v, quoted);
    assert (key + "=" + q)[0] == key[0];
    MatchKeyed(p, key, q);
    QuotedValueOf(v, quoted);
  }

  /** A file of one terminated line holds that line's setting and nothing else. */
  lemma OneLineLoad(p: KeyPattern, t: string, st: BashConfig.Setting)
    requires BashConfig.Terminated(t) && ReadLine(p, t) == Some(st)
    ensures Load(p, t) == map[st.key := st.value]
  {
    BashConfig.SingleLine(t);
    assert ReadAll(p, [t]) == [Some(st)];
    BashConfig.FoldAppend([], Some(st));
    assert [] + [Some(st)] == [Some(st)];
  }

  // ---------------------------------------------------------------------------
  // web_app.get_download_paths
  // ---------------------------------------------------------------------------

  /**
   Slot `i`: listed when its path key is present and non-empty. The name is
   the name key's value when present (even an empty one), else `Path i`.
   */
  function WebSlot(c: map<string, string>, i: nat): (r: seq<Browse.DownloadPath>)
    ensures |r| <= 1
    ensures |r| == 1 <==> BashConfig.PathKey(i) in c && c[BashConfig.PathKey(i)] != ""
    ensures |r| == 1 ==> r[0].path == c[BashConfig.PathKey(i)]
  {
    var pk := BashConfig.PathKey(i);
    var nk := BashConfig.NameKey(i);
    if pk in c && c[pk] != "" then
      [Browse.DownloadPath(if nk in c then c[nk] else "Path " + NatToString(i), c[pk])]
    else []
  }

  function WebSlotsFrom(c: map<string, string>, i: nat): (r: seq<Browse.DownloadPath>)
    requires 1 <= i <= 6
    ensures |r| <= 6 - i
    ensures forall p :: p in r <==> exists n :: i <= n <= 5 && WebSlot(c, n) == [p]
    decreases 6 - i
  {
    if i == 6 then []
    else
      var tail := WebSlotsFrom(c, i + 1);
      WebSlotsCons(c, i, tail);
      WebSlot(c, i) + tail
  }

  lemma WebSlotsCons(c: map<string, string>, i: nat, tail: seq<Browse.DownloadPath>)
    requires 1 <= i <= 5
    requires forall p :: p in tail <==> exists n :: i + 1 <= n <= 5 && WebSlot(c, n) == [p]
    ensures forall p :: p in WebSlot(c, i) + tail <==> exists n :: i <= n <= 5 && WebSlot(c, n) == [p]
  {
    var r := WebSlot(c, i) + tail;
    forall p
      ensures p in r <==> exists n :: i <= n <= 5 && WebSlot(c, n) == [p]
    {
      if p in WebSlot(c, i) {
        assert WebSlot(c, i) == [p];
      }
      if exists n :: i <= n <= 5 && WebSlot(c, n) == [p] {
        var n :| i <= n <= 5 && WebSlot(c, n) == [p];
        if n == i {
          assert p in WebSlot(c, i);
        }
      }
    }
  }

  /**
   `get_download_paths` over the settings `load_config` returned: a
   destination is listed exactly when one of the five slots yields it.
   */
  function WebDownloadPaths(c: map<string, string>): (r: seq<Browse.DownloadPath>)
    ensures |r| <= 5
    ensures forall p :: p in r <==> exists i :: 1 <= i <= 5 && WebSlot(c, i) == [p]
  {
    WebSlotsFrom(c, 1)
  }

  /**
   The web slot agrees with the download manager's `Config.get_download_paths`
   except when the name key is present but empty: the web shows the empty
   name, the download manager shows `Path i`.
   */
  lemma WebSlotAgainstManager(c: map<string, string>, i: nat)
    ensures var nk := BashConfig.NameKey(i);
            nk !in c || c[nk] != "" ==> WebSlot(c, i) == BashConfig.Slot(BashConfig.Config(c), i)
    ensures var nk := BashConfig.NameKey(i);
            nk in c && c[nk] == "" && |WebSlot(c, i)| == 1 ==>
              WebSlot(c, i)[0].name == "" && BashConfig.Slot(BashConfig.Config(c), i)[0].name == "Path " + NatToString(i)
  {
  }

  /** With no path key in the settings, the web offers no destination. */
  lemma {:induction false} NoPathKeysNoSlots(c: map<string, string>, i: nat)
    requires 1 <= i <= 6
    requires forall n :: i <= n <= 5 ==> BashConfig.PathKey(n) !in c
    ensures WebSlotsFrom(c, i) == []
    decreases 6 - i
  {
    if i < 6 {
      NoPathKeysNoSlots(c, i + 1);
    }
  }

  /** `DOWNLOAD_PATH_n` holds a digit, which `[A-Z_]` does not admit. */
  lemma PathKeyHasDigit(n: nat)
    ensures !AllKeyChars(UpperUnderscore, BashConfig.PathKey(n))
    ensures AllKeyChars(UpperDigitUnderscore, BashConfig.PathKey(n))
  {
    var k := BashConfig.PathKey(n);
    var d := NatToString(n);
    assert k[14] == d[0];
    assert forall i :: 14 <= i < |k| ==> k[i] == d[i - 14];
  }

  /**
   The discrepancy: whatever the configuration file says, the web interface
   lists no download path, because the reader never stores a key with a digit.
   */
  lemma WebPathsAlwaysEmpty(file: Option<string>)
    ensures WebDownloadPaths(WebLoadConfig(file)) == []
  {
    var c := WebLoadConfig(file);
    forall n | 1 <= n <= 5
      ensures BashConfig.PathKey(n) !in c
    {
      PathKeyHasDigit(n);
    }
    NoPathKeysNoSlots(c, 1);
  }

  // ---------------------------------------------------------------------------
  // The reader with digits admitted in keys
  // ---------------------------------------------------------------------------

  /** `load_config` with the key class `[A-Z0-9_]`. */
  function WebLoadConfigFixed(file: Option<string>): (m: map<string, string>)
    ensures file.None? ==> m == map[]
    ensures forall k :: k in m ==> |k| > 0 && AllKeyChars(UpperDigitUnderscore, k) && '"' !in m[k]
  {
    match file
    case None => map[]
    case Some(text) =>
      LoadShape(UpperDigitUnderscore, text);
      Load(UpperDigitUnderscore, text)
  }

  /** Admitting digits changes nothing for lines whose keys have none. */
  lemma FixedAgreesOnLettersOnly(line: string)
    requires var r := ReadLine(UpperDigitUnderscore, line); r.Some? ==> AllKeyChars(UpperUnderscore, r.value.key)
    ensures ReadLine(UpperUnderscore, line) == ReadLine(UpperDigitUnderscore, line)
  {
    var s := Strip(line);
    if |s| > 0 && s[0] != '#' {
      var a := MatchLine(UpperUnderscore, s);
      var b := MatchLine(UpperDigitUnderscore, s);
      if a.Some? {
        var k := a.value.key;
        assert AllKeyChars(UpperDigitUnderscore, s[..|k|]) by {
          assert s[..|k|] == k;
        }
        KeyRunAt(UpperDigitUnderscore, s, |k|);
      }
      if b.Some? {
        var k := b.value.key;
        assert AllKeyChars(UpperUnderscore, s[..|k|]) by {
          assert s[..|k|] == k;
        }
        KeyRunAt(UpperUnderscore, s, |k|);
      }
    }
  }

  lemma PathKeysDistinct(a: nat, b: nat)
    requires a != b
    ensures BashConfig.PathKey(a) != BashConfig.PathKey(b)
    ensures BashConfig.NameKey(a) != BashConfig.PathKey(b)
  {
    var x, y := BashConfig.PathKey(a), BashConfig.PathKey(b);
    assert BashConfig.NameKey(a)[0] == 'P' && y[0] == 'D';
    assert x[14..] == NatToString(a) && y[14..] == NatToString(b);
  }

  /** With digits admitted, a configured `DOWNLOAD_PATH_i` line is offered as `Path i`. */
  lemma FixedReaderListsPath(i: nat, path: string)
    requires 1 <= i <= 5
    requires path != "" && RegexValue(path)
    ensures var file := BashConfig.Render(BashConfig.PathKey(i), path, true);
            WebDownloadPaths(WebLoadConfigFixed(Some(file)))
              == [Browse.DownloadPath("Path " + NatToString(i), path)]
  {
    FixedReadsPathLine(i, path);
    SinglePathListed(i, path);
  }

  lemma FixedReadsPathLine(i: nat, path: string)
    requires RegexValue(path)
    ensures WebLoadConfigFixed(Some(BashConfig.Render(BashConfig.PathKey(i), path, true)))
         == map[BashConfig.PathKey(i) := path]
  {
    var pk := BashConfig.PathKey(i);
    PathKeyHasDigit(i);
    KeyCharsNoNewline(UpperDigitUnderscore, pk);
    RenderedLoads(UpperDigitUnderscore, pk, path);
  }

  lemma KeyCharsNoNewline(p: KeyPattern, k: string)
    requires AllKeyChars(p, k)
    ensures '\n' !in k
  {
    assert forall j :: 0 <= j < |k| ==> k[j] != '\n';
  }

  /** A quoted `KEY="value"` file with a key the pattern admits loads as that one setting. */
  lemma RenderedLoads(p: KeyPattern, key: string, v: string)
    requires |key| > 0 && AllKeyChars(p, key) && '\n' !in key && RegexValue(v)
    ensures Load(p, BashConfig.Render(key, v, true)) == map[key := v]
  {
    var line := BashConfig.Render(key, v, true);
    ReadRendered(p, key, v, true);
    RenderedTerminated(key, v, true);
    OneLineLoad(p, line, BashConfig.Setting(key, v));
  }

  lemma SinglePathListed(i: nat, path: string)
    requires 1 <= i <= 5 && path != ""
    ensures WebDownloadPaths(map[BashConfig.PathKey(i) := path])
         == [Browse.DownloadPath("Path " + NatToString(i), path)]
  {
    var c := map[BashConfig.PathKey(i) := path];
    forall n | 1 <= n <= 5 && n != i
      ensures WebSlot(c, n) == []
    {
      PathKeysDistinct(n, i);
    }
    PathKeysDistinct(i + 1, i);
    assert BashConfig.NameKey(i) != BashConfig.PathKey(i) by {
      assert BashConfig.NameKey(i)[0] == 'P';
    }
    assert WebSlot(c, i) == [Browse.DownloadPath("Path " + NatToString(i), path)];
    SlotsAfter(c, i + 1);
    SlotsBefore(c, 1, i);
  }

  lemma RenderedTerminated(key: string, v: string, quoted: bool)
    requires '\n' !in key && '\n' !in v
    ensures BashConfig.Terminated(BashConfig.Render(key, v, quoted))
  {
    var l := BashConfig.Render(key, v, quoted);
    assert l[..|l| - 1] == key + "=" + BashConfig.Quote(v, quoted);
  }

  lemma {:induction false} SlotsAfter(c: map<string, string>, i: nat)
    requires 1 <= i <= 6
    requires forall n :: i <= n <= 5 ==> WebSlot(c, n) == []
    ensures WebSlotsFrom(c, i) == []
    decreases 6 - i
  {
    if i < 6 {
      SlotsAfter(c, i + 1);
    }
  }

  lemma {:induction false} SlotsBefore(c: map<string, string>, i: nat, target: nat)
    requires 1 <= i <= target <= 5
    requires forall n :: i <= n < target ==> WebSlot(c, n) == []
    ensures WebSlotsFrom(c, i) == WebSlotsFrom(c, target)
    decreases target - i
  {
    if i < target {
      SlotsBefore(c, i + 1, target);
    }
  }
}
