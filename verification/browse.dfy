/**
 The interactive browser of `download-manager.py`: what one answer at the
 `Your choice` prompt does (`browse_files`), how the destination menu of
 `download_files` resolves a number to a directory, and the per-file loop
 that counts successes and failures. Prompts, tables, progress bars and the
 log file are left to the caller; the transfer agent's verdict for each file
 is an input.
 */
module Browse {
  import opened Text
  import opened RemoteListing
  import opened Selection
  import opened Paths

  /** The browser's state: where it is, and the configured base it can return to. */
  datatype Session = Session(current: string, base: string)

  /** What the loop does after one answer. */
  datatype Action =
    | Quit
    | Redisplay
    | Refresh
    | ExportCsv
    | ToggleFolderSizes
    | Download(files: seq<Entry>)
    | NoFilesToSelect
    | InvalidSelection

  /** `[f for f in files if not f['is_dir']]`. */
  function FilesOnly(es: seq<Entry>): (r: seq<Entry>)
    ensures |r| <= |es|
    ensures forall k :: 0 <= k < |r| ==> !r[k].isDir && r[k] in es
    ensures forall k :: 0 <= k < |es| && !es[k].isDir ==> es[k] in r
  {
    if |es| == 0 then []
    else (if es[0].isDir then [] else [es[0]]) + FilesOnly(es[1..])
  }

  /**
   The filter keeps the listing's order and every file entry: it distributes
   over concatenation, and on one entry keeps a file and drops a directory.
   Together these determine `FilesOnly` on every listing.
   */
  lemma {:induction false} FilesOnlyAppend(a: seq<Entry>, b: seq<Entry>)
    ensures FilesOnly(a + b) == FilesOnly(a) + FilesOnly(b)
    decreases |a|
  {
    if |a| == 0 {
      assert a + b == b;
    } else {
      assert (a + b)[1..] == a[1..] + b;
      FilesOnlyAppend(a[1..], b);
    }
  }

  lemma FilesOnlySingle(e: Entry)
    ensures FilesOnly([e]) == if e.isDir then [] else [e]
  {
    assert [e][1..] == [];
  }

  /**
   The choice dispatch of `browse_files` for a non-empty listing. Keywords are
   compared case-insensitively except `..` and `0`; everything else goes
   through `parse_selection`. A selection of exactly one directory enters it;
   otherwise its files (never its directories) are downloaded.
   */
  function Dispatch(s: Session, choice: string, files: seq<Entry>): (r: (Session, Action))
    ensures r.0.base == s.base
    ensures r.1 == Quit <==> Lower(choice) == "q"
    ensures r.0.current != s.current ==> r.1 == Redisplay
    ensures r.1.Download? ==>
              |r.1.files| > 0 && forall k :: 0 <= k < |r.1.files| ==> !r.1.files[k].isDir && r.1.files[k] in files
    ensures Lower(choice) != "q" && choice == ".." ==>
              r.0.current == if s.current != s.base then Parent(s.current) else s.current
    ensures Lower(choice) != "q" && choice == "0" ==> r.0.current == s.base
    ensures r.1 == InvalidSelection ==> ParseSelection(choice, files) == []
  {
    var low := Lower(choice);
    if low == "q" then (s, Quit)
    else if choice == ".." then
      (if s.current != s.base then s.(current := Parent(s.current)) else s, Redisplay)
    else if choice == "0" then (s.(current := s.base), Redisplay)
    else if low == "r" then (s, Refresh)
    else if low == "e" then (s, ExportCsv)
    else if low == "f" then (s, ToggleFolderSizes)
    else if low == "all" then
      var all := FilesOnly(files);
      if |all| > 0 then (s, Download(all)) else (s, NoFilesToSelect)
    else SelectionStep(s, ParseSelection(choice, files))
  }

  /** The last branch of the dispatch, given what `parse_selection` returned. */
  function SelectionStep(s: Session, selected: seq<Entry>): (r: (Session, Action))
    ensures r.0.base == s.base
    ensures r.0.current != s.current ==> r.1 == Redisplay
    ensures r.1 == InvalidSelection <==> selected == []
    ensures r.1.Download? ==>
              |r.1.files| > 0 && forall k :: 0 <= k < |r.1.files| ==> !r.1.files[k].isDir && r.1.files[k] in selected
  {
    if |selected| == 0 then (s, InvalidSelection)
    else if |selected| == 1 && selected[0].isDir then
      (s.(current := PathJoin(s.current, selected[0].name)), Redisplay)
    else
      var chosen := FilesOnly(selected);
      if |chosen| > 0 then (s, Download(chosen)) else (s, Redisplay)
  }

  /** An answer that is none of the keywords is a selection. */
  predicate IsKeyword(choice: string) {
    var low := Lower(choice);
    low == "q" || choice == ".." || choice == "0" || low == "r" || low == "e" || low == "f" || low == "all"
  }

  lemma DispatchSelection(s: Session, choice: string, files: seq<Entry>)
    requires !IsKeyword(choice)
    ensures Dispatch(s, choice, files) == SelectionStep(s, ParseSelection(choice, files))
  {
  }

  /** No decimal numeral is one of the keywords the dispatch checks first. */
  lemma NumeralIsNotKeyword(i: nat)
    requires i >= 1
    ensures !IsKeyword(NatToString(i))
  {
    var c := NatToString(i);
    assert IsDigit(c[0]);
    if |c| == 1 {
      assert c[0] != '0' by {
        assert DigitsValue(c) == DigitValue(c[0]) by { assert c[..0] == []; }
      }
    }
  }

  /** Typing the number of a directory enters it; `..` then leads back to the same place. */
  lemma EnterDirectoryByNumber(s: Session, files: seq<Entry>, i: nat)
    requires 1 <= i <= |files|
    requires files[i - 1].isDir && IsComponent(files[i - 1].name)
    ensures var r := Dispatch(s, NatToString(i), files);
            && r.0.current == PathJoin(s.current, files[i - 1].name)
            && r.1 == Redisplay
            && Components(Parent(r.0.current)) == Components(s.current)
  {
    NumeralIsNotKeyword(i);
    DispatchSelection(s, NatToString(i), files);
    SingleIndex(i, files);
    EnterThenUp(s.current, files[i - 1].name);
  }

  /** Typing the number of a file downloads exactly that file. */
  lemma DownloadFileByNumber(s: Session, files: seq<Entry>, i: nat)
    requires 1 <= i <= |files|
    requires !files[i - 1].isDir
    ensures Dispatch(s, NatToString(i), files) == (s, Download([files[i - 1]]))
  {
    NumeralIsNotKeyword(i);
    DispatchSelection(s, NatToString(i), files);
    SingleIndex(i, files);
    var f := files[i - 1];
    assert [f][1..] == [];
    assert FilesOnly([f]) == [f];
    assert SelectionStep(s, [f]) == (s, Download([f]));
  }

  /** `all` (in any case) downloads every file of the listing and no directory. */
  lemma SelectAll(s: Session, choice: string, files: seq<Entry>)
    requires Lower(choice) == "all"
    ensures var r := Dispatch(s, choice, files);
            && r.0 == s
            && ((exists k :: 0 <= k < |files| && !files[k].isDir) ==> r.1 == Download(FilesOnly(files)))
            && ((forall k :: 0 <= k < |files| ==> files[k].isDir) ==> r.1 == NoFilesToSelect)
  {
    assert choice != ".." && choice != "0" by {
      assert |choice| == 3;
    }
  }

  // ---------------------------------------------------------------------------
  // download_files
  // ---------------------------------------------------------------------------

  /** One configured destination: display name and directory. */
  datatype DownloadPath = DownloadPath(name: string, path: string)

  datatype Destination = Cancelled | Chosen(path: string) | InvalidChoice

  /**
   The destination menu: `0` cancels, `1..n` pick a configured path, `n + 1`
   takes the custom path typed at the next prompt, anything else (including
   text `int()` rejects) is an invalid choice.
   */
  function ChooseDestination(choice: string, paths: seq<DownloadPath>, customPath: string): (d: Destination)
    ensures d.Chosen? ==> d.path == customPath || exists k :: 0 <= k < |paths| && d.path == paths[k].path
    ensures choice == "0" <==> d == Cancelled
    ensures ParseInt(choice).None? && choice != "0" ==> d == InvalidChoice
  {
    if choice == "0" then Cancelled
    else match ParseInt(choice)
      case None => InvalidChoice
      case Some(idx) =>
        if 1 <= idx <= |paths| then Chosen(paths[idx - 1].path)
        else if idx == |paths| + 1 then Chosen(customPath)
        else InvalidChoice
  }

  /** Every menu line does what it shows: line `k` is the k-th path, line `n + 1` the custom path. */
  lemma DestinationMenu(paths: seq<DownloadPath>, customPath: string, k: nat)
    requires 1 <= k <= |paths| + 1
    ensures ChooseDestination(NatToString(k), paths, customPath)
         == if k <= |paths| then Chosen(paths[k - 1].path) else Chosen(customPath)
  {
    NumeralIsNotKeyword(k);
    ParseIntDigits(NatToString(k));
  }

  /** Files land in a sub-directory named after the remote folder, when it has a name. */
  function FinalDestination(dest: string, current: string): (r: string)
    ensures Name(current) == "" ==> r == dest
    ensures Name(current) != "" ==> Components(r) == Components(dest) + [Name(current)]
  {
    var folder := Name(current);
    if folder != "" then
      ComponentsOfPathJoin(dest, folder);
      PathJoin(dest, folder)
    else dest
  }

  /** One iteration of the download loop: the paths it used and the agent's verdict. */
  datatype Attempt = Attempt(remote: string, local: string, ok: bool)

  function CountTrue(xs: seq<bool>): (n: nat)
    ensures n <= |xs|
  {
    if |xs| == 0 then 0 else CountTrue(xs[..|xs| - 1]) + (if xs[|xs| - 1] then 1 else 0)
  }

  /**
   The loop of `download_files`: every file is attempted in order, whatever
   happened to the ones before, and each attempt adds one to exactly one of
   the two counters. `outcomes[i]` is what `download_file` returned for file `i`.
   */
  method DownloadBatch(current: string, dest: string, files: seq<Entry>, outcomes: seq<bool>)
    returns (attempts: seq<Attempt>, successCount: nat, failCount: nat)
    requires |outcomes| == |files|
    ensures |attempts| == |files|
    ensures forall i :: 0 <= i < |files| ==>
              attempts[i] == Attempt(PathJoin(current, files[i].name), PathJoin(dest, files[i].name), outcomes[i])
    ensures successCount == CountTrue(outcomes)
    ensures successCount + failCount == |files|
  {
    attempts := [];
    successCount := 0;
    failCount := 0;
    var i := 0;
    while i < |files|
      invariant 0 <= i <= |files|
      invariant |attempts| == i
      invariant Recorded(attempts, current, dest, files, outcomes)
      invariant successCount == CountTrue(outcomes[..i])
      invariant successCount + failCount == i
    {
      var remote := PathJoin(current, files[i].name);
      var local := PathJoin(dest, files[i].name);
      RecordedStep(attempts, current, dest, files, outcomes);
      attempts := attempts + [Attempt(remote, local, outcomes[i])];
      CountTrueStep(outcomes, i);
      if outcomes[i] {
        successCount := successCount + 1;
      } else {
        failCount := failCount + 1;
      }
      i := i + 1;
    }
    assert outcomes[..|files|] == outcomes;
  }

  /** The attempts so far are those of the first files, in order. */
  predicate Recorded(attempts: seq<Attempt>, current: string, dest: string, files: seq<Entry>, outcomes: seq<bool>)
    requires |attempts| <= |files| == |outcomes|
  {
    forall j :: 0 <= j < |attempts| ==>
      attempts[j] == Attempt(PathJoin(current, files[j].name), PathJoin(dest, files[j].name), outcomes[j])
  }

  lemma RecordedStep(attempts: seq<Attempt>, current: string, dest: string, files: seq<Entry>, outcomes: seq<bool>)
    requires |attempts| < |files| == |outcomes|
    requires Recorded(attempts, current, dest, files, outcomes)
    ensures var i := |attempts|;
            Recorded(attempts + [Attempt(PathJoin(current, files[i].name), PathJoin(dest, files[i].name), outcomes[i])],
                     current, dest, files, outcomes)
  {
  }

  lemma CountTrueStep(xs: seq<bool>, i: nat)
    requires i < |xs|
    ensures CountTrue(xs[..i + 1]) == CountTrue(xs[..i]) + if xs[i] then 1 else 0
  {
    assert xs[..i + 1][..i] == xs[..i];
  }
}
