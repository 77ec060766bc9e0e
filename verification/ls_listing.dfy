/**
 `RemoteScanner.parse_directory_listing` of `remote_scanner.py`: the
 `lftp ls -l --time-style=long-iso` output turned into file records. Each
 line is stripped and split into at most eight whitespace-separated fields,
 the last of which is the rest of the line, so a file name keeps its inner
 spaces. Only directories and regular files are kept; `.` and `..` are not.
 */
module LsListing {
  import opened Text
  import Format

  // ---------------------------------------------------------------------------
  // str.split(None, maxsplit)
  // ---------------------------------------------------------------------------

  predicate NoSpace(w: string) {
    forall i :: 0 <= i < |w| ==> !IsSpace(w[i])
  }

  /** A field `ls` prints: non-empty, no whitespace. */
  predicate Field(f: string) {
    |f| > 0 && NoSpace(f)
  }

  predicate AllFields(ws: seq<string>) {
    forall i :: 0 <= i < |ws| ==> Field(ws[i])
  }

  lemma AllFieldsTail(ws: seq<string>)
    requires |ws| > 0 && AllFields(ws)
    ensures Field(ws[0]) && AllFields(ws[1..])
  {
    assert forall i :: 0 <= i < |ws| - 1 ==> ws[1..][i] == ws[i + 1];
  }

  /** The leading run of non-whitespace characters. */
  function Word(s: string): (w: string)
    ensures |w| <= |s| && w == s[..|w|] && NoSpace(w)
    ensures |w| < |s| ==> IsSpace(s[|w|])
    decreases |s|
  {
    if |s| == 0 || IsSpace(s[0]) then []
    else
      var w := Word(s[1..]);
      assert [s[0]] + w == s[..|w| + 1];
      [s[0]] + w
  }

  /**
   `s.split(None, k)`: whitespace runs separate fields and leading whitespace
   is ignored; after `k` splits the rest of the text, from its first
   non-whitespace character on, is the last field.
   */
  function SplitFields(s: string, k: nat): (r: seq<string>)
    ensures |r| <= k + 1
    ensures forall i :: 0 <= i < |r| ==> Starts(r[i])
    ensures forall i :: 0 <= i < |r| && i < k ==> NoSpace(r[i])
    decreases |s|
  {
    var t := TrimLeft(s);
    if |t| == 0 then []
    else if k == 0 then [t]
    else
      var w := Word(t);
      var rest := SplitFields(t[|w|..], k - 1);
      ConsFields(w, rest, k);
      [w] + rest
  }

  /** A non-empty text whose first character is not whitespace. */
  predicate Starts(f: string) {
    |f| > 0 && !IsSpace(f[0])
  }

  lemma ConsFields(w: string, rest: seq<string>, k: nat)
    requires Starts(w) && NoSpace(w) && k > 0
    requires forall i :: 0 <= i < |rest| ==> Starts(rest[i])
    requires forall i :: 0 <= i < |rest| && i < k - 1 ==> NoSpace(rest[i])
    ensures forall i :: 0 <= i < |rest| + 1 ==> Starts(([w] + rest)[i])
    ensures forall i :: 0 <= i < |rest| + 1 && i < k ==> NoSpace(([w] + rest)[i])
  {
    assert forall i :: 1 <= i < |rest| + 1 ==> ([w] + rest)[i] == rest[i - 1];
  }

  /** Fields separated by single spaces, the last one being `rest`. */
  function Spaced(ws: seq<string>, rest: string): string {
    if |ws| == 0 then rest else ws[0] + " " + Spaced(ws[1..], rest)
  }

  lemma TrimLeftNoLeadingSpace(s: string)
    requires |s| > 0 ==> !IsSpace(s[0])
    ensures TrimLeft(s) == s
  {
  }

  lemma TrimLeftOneSpace(s: string)
    ensures TrimLeft(" " + s) == TrimLeft(s)
  {
    assert (" " + s)[1..] == s;
  }

  lemma WordBeforeSpace(w: string, tail: string)
    requires Field(w)
    ensures Word(w + " " + tail) == w
    decreases |w|
  {
    var s := w + " " + tail;
    assert s[0] == w[0] && s[1..] == w[1..] + " " + tail;
    if |w| > 1 {
      WordBeforeSpace(w[1..], tail);
      assert [w[0]] + w[1..] == w;
    } else {
      assert s[1..][0] == ' ';
    }
  }

  /** One field and a single space come off the front of the text. */
  lemma {:induction false} SplitStep(s: string, w: string, tail: string, k: nat)
    requires s == w + " " + tail
    requires Field(w) && k >= 1
    requires |tail| > 0 && !IsSpace(tail[0])
    ensures SplitFields(s, k) == [w] + SplitFields(tail, k - 1)
  {
    assert s[0] == w[0];
    TrimLeftNoLeadingSpace(s);
    WordBeforeSpace(w, tail);
    assert s[|w|..] == " " + tail;
    SplitLeadingSpace(tail, k - 1);
  }

  lemma {:induction false} SplitZero(rest: string)
    requires |rest| > 0 && !IsSpace(rest[0])
    ensures SplitFields(rest, 0) == [rest]
  {
    TrimLeftNoLeadingSpace(rest);
  }

  lemma {:induction false} SplitLeadingSpace(x: string, k: nat)
    ensures SplitFields(" " + x, k) == SplitFields(x, k)
  {
    TrimLeftOneSpace(x);
  }

  /** Splitting fields written with single spaces gives them back, the last with its inner spaces. */
  lemma {:induction false} SplitSpaced(ws: seq<string>, rest: string)
    requires AllFields(ws) && Starts(rest)
    ensures SplitFields(Spaced(ws, rest), |ws|) == ws + [rest]
    decreases |ws|
  {
    if |ws| == 0 {
      SplitZero(rest);
    } else {
      AllFieldsTail(ws);
      SpacedStep(ws, rest);
      SplitSpaced(ws[1..], rest);
      Glue(SplitFields(Spaced(ws, rest), |ws|), SplitFields(Spaced(ws[1..], rest), |ws| - 1), ws, rest);
    }
  }

  lemma SpacedStep(ws: seq<string>, rest: string)
    requires |ws| > 0 && AllFields(ws) && Starts(rest)
    ensures SplitFields(Spaced(ws, rest), |ws|) == [ws[0]] + SplitFields(Spaced(ws[1..], rest), |ws| - 1)
  {
    AllFieldsTail(ws);
    SpacedStart(ws[1..], rest);
    SplitStep(Spaced(ws, rest), ws[0], Spaced(ws[1..], rest), |ws|);
  }

  lemma Glue<T>(a: seq<T>, b: seq<T>, xs: seq<T>, y: T)
    requires |xs| > 0 && a == [xs[0]] + b && b == xs[1..] + [y]
    ensures a == xs + [y]
  {
    ConsAppend(xs, y);
  }

  lemma ConsAppend<T>(xs: seq<T>, y: T)
    requires |xs| > 0
    ensures [xs[0]] + (xs[1..] + [y]) == xs + [y]
  {
  }

  lemma {:induction false} SpacedStart(ws: seq<string>, rest: string)
    requires AllFields(ws)
    requires |rest| > 0 && !IsSpace(rest[0])
    ensures var s := Spaced(ws, rest); |s| > 0 && !IsSpace(s[0])
  {
    if |ws| > 0 {
      assert Spaced(ws, rest)[0] == ws[0][0];
    }
  }

  // ---------------------------------------------------------------------------
  // One line
  // ---------------------------------------------------------------------------

  /** The dict appended to `files`. */
  datatype Listed = Listed(filename: string, remotePath: string, fileSize: nat,
                           modifiedDate: string, serverAddedDate: string, fileType: string)

  /** Only directories (`d`) and regular files (`-`) are kept. */
  predicate KeptKind(c: char) {
    c == 'd' || c == '-'
  }

  /** `int(parts[4]) if parts[4].isdigit() else 0`. */
  function SizeField(f: string): (n: nat)
    ensures IsDigits(f) ==> ParseInt(f) == Some(n as int)
    ensures !IsDigits(f) ==> n == 0
  {
    if IsDigits(f) then
      ParseIntDigits(f);
      DigitsValue(f)
    else 0
  }

  /** `folder` for a directory, else the lower-cased extension without its dot. */
  function FileType(kind: char, name: string): (t: string)
    ensures kind == 'd' ==> t == "folder"
    ensures kind != 'd' ==> t == Format.WebKey(name) && (|t| > 0 ==> t[0] != '.')
  {
    if kind == 'd' then "folder"
    else
      var t := Format.WebKey(name);
      LowerFirstNotDot(Format.LStrip(Format.Suffix(name), '.'));
      t
  }

  lemma LowerFirstNotDot(s: string)
    requires |s| > 0 ==> s[0] != '.'
    ensures |Lower(s)| > 0 ==> Lower(s)[0] != '.'
  {
  }

  /** What one line of the listing contributes, if anything. */
  function ParseEntry(line: string, remotePath: string): (r: Option<Listed>)
    ensures r.Some? ==> r.value.remotePath == remotePath
    ensures var parts := SplitFields(Strip(line), 7);
            r.Some? <==> |parts| == 8 && KeptKind(parts[0][0]) && parts[7] != "." && parts[7] != ".."
    ensures var parts := SplitFields(Strip(line), 7);
            r.Some? ==> && r.value.filename == parts[7]
                        && r.value.modifiedDate == r.value.serverAddedDate == parts[5] + " " + parts[6]
                        && r.value.fileSize == SizeField(parts[4])
                        && r.value.fileType == FileType(parts[0][0], parts[7])
  {
    var s := Strip(line);
    if |s| == 0 then None
    else
      var parts := SplitFields(s, 7);
      if |parts| < 8 then None
      else
        var kind := parts[0][0];
        var date := parts[5] + " " + parts[6];
        var name := parts[7];
        if name == "." || name == ".." then None
        else if !KeptKind(kind) then None
        else Some(Listed(name, remotePath, SizeField(parts[4]), date, date, FileType(kind, name)))
  }

  // ---------------------------------------------------------------------------
  // The whole listing
  // ---------------------------------------------------------------------------

  function Collect(lines: seq<string>, remotePath: string): (r: seq<Listed>)
    ensures |r| <= |lines|
    ensures AllUnder(r, remotePath)
  {
    if |lines| == 0 then []
    else
      var rest := Collect(lines[1..], remotePath);
      match ParseEntry(lines[0], remotePath)
      case None => rest
      case Some(e) => [e] + rest
  }

  /** Every record names `remotePath` as its directory. */
  predicate AllUnder(r: seq<Listed>, remotePath: string) {
    forall i :: 0 <= i < |r| ==> r[i].remotePath == remotePath
  }

  /** `parse_directory_listing(listing, remote_path)`. */
  function ParseListing(listing: string, remotePath: string): (r: seq<Listed>)
    ensures |r| <= |Split(listing, '\n')|
    ensures forall i :: 0 <= i < |r| ==> r[i].remotePath == remotePath
  {
    Collect(Split(listing, '\n'), remotePath)
  }

  lemma {:induction false} CollectAppend(a: seq<string>, b: seq<string>, remotePath: string)
    ensures Collect(a + b, remotePath) == Collect(a, remotePath) + Collect(b, remotePath)
    decreases |a|
  {
    if |a| > 0 {
      assert (a + b)[0] == a[0];
      assert (a + b)[1..] == a[1..] + b;
      CollectAppend(a[1..], b, remotePath);
    } else {
      assert a + b == b;
    }
  }

  /** Lines are independent: the records of two listings joined by a line break are both lists in order. */
  lemma ListingConcat(a: string, b: string, remotePath: string)
    ensures ParseListing(a + "\n" + b, remotePath) == ParseListing(a, remotePath) + ParseListing(b, remotePath)
  {
    SplitAround(a, b, '\n');
    CollectAppend(Split(a, '\n'), Split(b, '\n'), remotePath);
  }

  /** A listing of lines is read line by line, each line contributing at most its own record. */
  lemma ListingOfLines(lines: seq<string>, remotePath: string)
    requires |lines| >= 1
    requires forall i :: 0 <= i < |lines| ==> '\n' !in lines[i]
    ensures ParseListing(Join(lines, '\n'), remotePath) == Collect(lines, remotePath)
  {
    SplitJoin(lines, '\n');
  }

  /** A line that is blank after stripping contributes nothing. */
  lemma BlankLineSkipped(line: string, remotePath: string)
    requires forall i :: 0 <= i < |line| ==> IsSpace(line[i])
    ensures ParseEntry(line, remotePath).None?
  {
  }

  // ---------------------------------------------------------------------------
  // The line `ls -l` prints for a file
  // ---------------------------------------------------------------------------

  /** A name the listing can carry: non-empty, no line break, no whitespace at either end. */
  predicate ListedName(n: string) {
    |n| > 0 && '\n' !in n && !IsSpace(n[0]) && !IsSpace(n[|n| - 1])
  }

  /** `mode links owner group size date time name`, one space apart. */
  function LsLine(mode: string, links: string, owner: string, group: string,
                  size: nat, date: string, time: string, name: string): string
  {
    Spaced([mode, links, owner, group, NatToString(size), date, time], name)
  }

  /** The record of a directory or regular file line carries exactly the fields the line shows. */
  lemma LsLineParses(mode: string, links: string, owner: string, group: string,
                     size: nat, date: string, time: string, name: string, remotePath: string)
    requires Field(mode) && Field(links) && Field(owner) && Field(group) && Field(date) && Field(time)
    requires ListedName(name) && name != "." && name != ".."
    requires KeptKind(mode[0])
    ensures ParseEntry(LsLine(mode, links, owner, group, size, date, time, name), remotePath)
         == Some(Listed(name, remotePath, size, date + " " + time, date + " " + time,
                        if mode[0] == 'd' then "folder" else Format.WebKey(name)))
  {
    var digits := NatToString(size);
    assert NoSpace(digits);
    ParseIntDigits(digits);
    SpacedLineParses(LsLine(mode, links, owner, group, size, date, time, name),
                     [mode, links, owner, group, digits, date, time], name, remotePath);
  }

  /** A line of seven fields and a name, one space apart, yields the record made of them. */
  lemma SpacedLineParses(line: string, ws: seq<string>, name: string, remotePath: string)
    requires line == Spaced(ws, name)
    requires |ws| == 7 && AllFields(ws)
    requires ListedName(name) && name != "." && name != ".."
    requires KeptKind(ws[0][0])
    ensures ParseEntry(line, remotePath)
         == Some(Listed(name, remotePath, SizeField(ws[4]), ws[5] + " " + ws[6], ws[5] + " " + ws[6],
                        FileType(ws[0][0], name)))
  {
    LsLineSplits(ws, name);
    EntryOfParts(line, remotePath, ws + [name]);
  }

  /** A line whose eight fields are known yields the record made of them. */
  lemma EntryOfParts(line: string, remotePath: string, parts: seq<string>)
    requires SplitFields(Strip(line), 7) == parts && |parts| == 8
    requires |parts[0]| > 0 && KeptKind(parts[0][0]) && parts[7] != "." && parts[7] != ".."
    ensures ParseEntry(line, remotePath)
         == Some(Listed(parts[7], remotePath, SizeField(parts[4]), parts[5] + " " + parts[6], parts[5] + " " + parts[6],
                        FileType(parts[0][0], parts[7])))
  {
  }

  lemma LsLineSplits(ws: seq<string>, name: string)
    requires |ws| == 7 && AllFields(ws)
    requires ListedName(name)
    ensures SplitFields(Strip(Spaced(ws, name)), 7) == ws + [name]
  {
    var line := Spaced(ws, name);
    SpacedStart(ws, name);
    SpacedEnd(ws, name);
    StripNoSpaceEnds(line);
    SplitSpaced(ws, name);
  }

  lemma {:induction false} SpacedEnd(ws: seq<string>, rest: string)
    requires |rest| > 0
    ensures var s := Spaced(ws, rest); |s| > 0 && s[|s| - 1] == rest[|rest| - 1]
    decreases |ws|
  {
    if |ws| > 0 {
      SpacedEnd(ws[1..], rest);
    }
  }

  /** Symbolic links, devices and the like are dropped even when the line is well formed. */
  lemma OtherKindsDropped(mode: string, links: string, owner: string, group: string,
                          size: nat, date: string, time: string, name: string, remotePath: string)
    requires Field(mode) && Field(links) && Field(owner) && Field(group) && Field(date) && Field(time)
    requires ListedName(name)
    requires !KeptKind(mode[0])
    ensures ParseEntry(LsLine(mode, links, owner, group, size, date, time, name), remotePath).None?
  {
    var ws := [mode, links, owner, group, NatToString(size), date, time];
    assert NoSpace(NatToString(size));
    LsLineSplits(ws, name);
  }
}
