/**
 The catalogue's writers outside the `Database` class: the scanner's
 `scan_and_store` and `--queue` command line option, and the web server's
 `POST /api/queue/add`.
 */
module Requests {
  import opened Text
  import Catalog
  import LsListing

  // ---------------------------------------------------------------------------
  // scan_and_store
  // ---------------------------------------------------------------------------

  function Store(db: Catalog.Db, f: LsListing.Listed, now: int): Catalog.Db {
    Catalog.AddOrUpdateFile(db, f.remotePath, f.filename, f.fileSize, f.modifiedDate, f.serverAddedDate,
                            f.fileType, now).0
  }

  /**
   Every file of the scan passed to `add_or_update_file` in turn. Each call
   reads the clock itself: `times[k]` is the reading for `files[k]`.
   */
  function StoreAll(db: Catalog.Db, files: seq<LsListing.Listed>, times: seq<int>): (db': Catalog.Db)
    requires |times| == |files|
    ensures db'.downloads == db.downloads && db'.sources == db.sources
    ensures |db.files| <= |db'.files| <= |db.files| + |files|
    ensures Catalog.Valid(db) ==> Catalog.Valid(db')
    decreases |files|
  {
    if |files| == 0 then db
    else
      StoreAll(Store(db, files[0], times[0]), files[1..], times[1..])
  }

  predicate Present(db: Catalog.Db, f: LsListing.Listed) {
    Catalog.FindFile(db.files, f.remotePath, f.filename).Some?
  }

  /** The catalogue row of a catalogued file. */
  function RowOf(db: Catalog.Db, f: LsListing.Listed): Catalog.FileRow
    requires Present(db, f)
  {
    db.files[Catalog.FindFile(db.files, f.remotePath, f.filename).value]
  }

  /** Two listed files naming the same catalogue row. */
  predicate SameKey(f: LsListing.Listed, g: LsListing.Listed) {
    f.remotePath == g.remotePath && f.filename == g.filename
  }

  /** `files[k]` is the last scanned file with its key. */
  predicate LastOfKey(files: seq<LsListing.Listed>, k: nat)
    requires k < |files|
  {
    forall j :: k < j < |files| ==> !SameKey(files[j], files[k])
  }

  /** A stored file stays catalogued: later stores only update or append rows. */
  lemma StorePreservesPresence(db: Catalog.Db, f: LsListing.Listed, g: LsListing.Listed, now: int)
    requires Present(db, g)
    ensures Present(Store(db, f, now), g)
  {
    var i := Catalog.FindFile(db.files, g.remotePath, g.filename).value;
    var db' := Store(db, f, now);
    assert db'.files[i].remotePath == g.remotePath && db'.files[i].filename == g.filename;
  }

  lemma StoreMakesPresent(db: Catalog.Db, f: LsListing.Listed, now: int)
    ensures Present(Store(db, f, now), f)
  {
    var db' := Store(db, f, now);
    match Catalog.FindFile(db.files, f.remotePath, f.filename)
    case Some(i) =>
      assert db'.files[i].remotePath == f.remotePath && db'.files[i].filename == f.filename;
    case None =>
      assert db'.files[|db.files|].remotePath == f.remotePath && db'.files[|db.files|].filename == f.filename;
  }

  /** Storing a file leaves the row of every other file as it was. */
  lemma StoreKeepsOtherRow(db: Catalog.Db, f: LsListing.Listed, g: LsListing.Listed, now: int)
    requires Catalog.Valid(db) && Present(db, g) && !SameKey(f, g)
    ensures Present(Store(db, f, now), g) && RowOf(Store(db, f, now), g) == RowOf(db, g)
  {
    var i := Catalog.FindFile(db.files, g.remotePath, g.filename).value;
    var db' := Store(db, f, now);
    assert db'.files[i] == db.files[i];
    StorePreservesPresence(db, f, g, now);
    var m := Catalog.FindFile(db'.files, g.remotePath, g.filename).value;
    assert m == i by {
      assert Catalog.KeysUnique(db'.files);
    }
  }

  /** The row of a stored file carries the clock reading of its store. */
  lemma StoreStamps(db: Catalog.Db, f: LsListing.Listed, now: int)
    requires Catalog.Valid(db)
    ensures Present(Store(db, f, now), f) && RowOf(Store(db, f, now), f).lastSeen == now
  {
    Catalog.AddOrUpdateFindsKey(db, f.remotePath, f.filename, f.fileSize, f.modifiedDate, f.serverAddedDate,
                                f.fileType, now);
  }

  lemma {:induction false} StoreAllKeepsRow(db: Catalog.Db, files: seq<LsListing.Listed>, times: seq<int>, g: LsListing.Listed)
    requires |times| == |files| && Catalog.Valid(db) && Present(db, g)
    requires forall j :: 0 <= j < |files| ==> !SameKey(files[j], g)
    ensures Present(StoreAll(db, files, times), g) && RowOf(StoreAll(db, files, times), g) == RowOf(db, g)
    decreases |files|
  {
    if |files| > 0 {
      StoreKeepsOtherRow(db, files[0], g, times[0]);
      assert forall j :: 0 <= j < |files| - 1 ==> files[1..][j] == files[j + 1];
      StoreAllKeepsRow(Store(db, files[0], times[0]), files[1..], times[1..], g);
    }
  }

  /**
   After a scan, the row of each file carries the clock reading of the last
   store of its key.
   */
  lemma {:induction false} StoreAllStamps(db: Catalog.Db, files: seq<LsListing.Listed>, times: seq<int>, k: nat)
    requires |times| == |files| && Catalog.Valid(db)
    requires k < |files| && LastOfKey(files, k)
    ensures Present(StoreAll(db, files, times), files[k])
    ensures RowOf(StoreAll(db, files, times), files[k]).lastSeen == times[k]
    decreases |files|
  {
    var db1 := Store(db, files[0], times[0]);
    assert forall j :: 0 <= j < |files| - 1 ==> files[1..][j] == files[j + 1];
    if k == 0 {
      StoreStamps(db, files[0], times[0]);
      StoreAllKeepsRow(db1, files[1..], times[1..], files[0]);
    } else {
      assert files[1..][k - 1] == files[k];
      StoreAllStamps(db1, files[1..], times[1..], k - 1);
    }
  }

  lemma {:induction false} StoreAllKeeps(db: Catalog.Db, files: seq<LsListing.Listed>, times: seq<int>, g: LsListing.Listed)
    requires |times| == |files| && Present(db, g)
    ensures Present(StoreAll(db, files, times), g)
    decreases |files|
  {
    if |files| > 0 {
      StorePreservesPresence(db, files[0], g, times[0]);
      StoreAllKeeps(Store(db, files[0], times[0]), files[1..], times[1..], g);
    }
  }

  /**
   `scan_and_store`: it reports `len(files)` stored files, and afterwards every
   scanned file is in the catalogue.
   */
  function ScanAndStore(db: Catalog.Db, files: seq<LsListing.Listed>, times: seq<int>): (r: (Catalog.Db, nat))
    requires |times| == |files|
    ensures r.1 == |files|
    ensures forall k :: 0 <= k < |files| ==> Present(r.0, files[k])
    ensures Catalog.Valid(db) ==> Catalog.Valid(r.0)
    ensures Catalog.Valid(db) ==>
              forall k :: 0 <= k < |files| && LastOfKey(files, k) ==> RowOf(r.0, files[k]).lastSeen == times[k]
  {
    StoreAllPresent(db, files, times);
    StoreAllStampsAll(db, files, times);
    (StoreAll(db, files, times), |files|)
  }

  lemma StoreAllStampsAll(db: Catalog.Db, files: seq<LsListing.Listed>, times: seq<int>)
    requires |times| == |files|
    ensures Catalog.Valid(db) ==>
              forall k :: 0 <= k < |files| && LastOfKey(files, k) ==>
                Present(StoreAll(db, files, times), files[k])
                && RowOf(StoreAll(db, files, times), files[k]).lastSeen == times[k]
  {
    if Catalog.Valid(db) {
      forall k | 0 <= k < |files| && LastOfKey(files, k)
        ensures Present(StoreAll(db, files, times), files[k])
        ensures RowOf(StoreAll(db, files, times), files[k]).lastSeen == times[k]
      {
        StoreAllStamps(db, files, times, k);
      }
    }
  }

  /**
   With the clock moving forward during a scan of distinct files, a file
   scanned later gets a later `last_seen`, so the search, newest first, lists
   the scan in reverse order.
   */
  lemma ScanOrdersLastSeen(db: Catalog.Db, files: seq<LsListing.Listed>, times: seq<int>, a: nat, b: nat)
    requires |times| == |files| && Catalog.Valid(db)
    requires forall i, j :: 0 <= i < j < |files| ==> !SameKey(files[i], files[j]) && times[i] < times[j]
    requires a < b < |files|
    ensures RowOf(ScanAndStore(db, files, times).0, files[a]).lastSeen
          < RowOf(ScanAndStore(db, files, times).0, files[b]).lastSeen
  {
    assert LastOfKey(files, a) && LastOfKey(files, b);
  }

  lemma {:induction false} StoreAllPresent(db: Catalog.Db, files: seq<LsListing.Listed>, times: seq<int>)
    requires |times| == |files|
    ensures forall k :: 0 <= k < |files| ==> Present(StoreAll(db, files, times), files[k])
    decreases |files|
  {
    if |files| > 0 {
      var db1 := Store(db, files[0], times[0]);
      StoreMakesPresent(db, files[0], times[0]);
      StoreAllKeeps(db1, files[1..], times[1..], files[0]);
      StoreAllPresent(db1, files[1..], times[1..]);
      assert forall k :: 1 <= k < |files| ==> files[k] == files[1..][k - 1];
    }
  }

  /** Scanning the same listing twice adds no row the second time. */
  lemma {:induction false} RescanAddsNothing(db: Catalog.Db, files: seq<LsListing.Listed>, times: seq<int>)
    requires |times| == |files|
    requires forall k :: 0 <= k < |files| ==> Present(db, files[k])
    ensures |StoreAll(db, files, times).files| == |db.files|
    decreases |files|
  {
    if |files| > 0 {
      var f := files[0];
      Catalog.RescanAddsNoRow(db, f.remotePath, f.filename, f.fileSize, f.modifiedDate, f.serverAddedDate,
                              f.fileType, times[0]);
      forall k | 0 <= k < |files| - 1
        ensures Present(Store(db, f, times[0]), files[1..][k])
      {
        StorePreservesPresence(db, f, files[k + 1], times[0]);
      }
      RescanAddsNothing(Store(db, f, times[0]), files[1..], times[1..]);
    }
  }

  // ---------------------------------------------------------------------------
  // --queue IDS
  // ---------------------------------------------------------------------------

  /** `range(lo, hi)`. */
  function Range(lo: int, hi: int): (r: seq<int>)
    ensures |r| == if hi <= lo then 0 else hi - lo
    ensures forall k :: 0 <= k < |r| ==> r[k] == lo + k
    decreases hi - lo
  {
    if hi <= lo then [] else [lo] + Range(lo + 1, hi)
  }

  /**
   One comma-separated part: `a-b` is the ids from `a` to `b` inclusive (no
   ids when `b < a`), anything else a single id. Text `int()` rejects, and a
   part with other than one `-`, is a `ValueError`.
   */
  function ParsePart(part: string): Option<seq<int>> {
    var p := Strip(part);
    if '-' in p then ParseRange(Split(p, '-')) else ParseSingle(p)
  }

  /** `start, end = map(int, pieces)`, then `range(start, end + 1)`. */
  function ParseRange(pieces: seq<string>): (r: Option<seq<int>>)
    ensures r.Some? <==> |pieces| == 2 && ParseInt(pieces[0]).Some? && ParseInt(pieces[1]).Some?
  {
    if |pieces| == 2 && ParseInt(pieces[0]).Some? && ParseInt(pieces[1]).Some? then
      Some(Range(ParseInt(pieces[0]).value, ParseInt(pieces[1]).value + 1))
    else None
  }

  function ParseSingle(p: string): Option<seq<int>> {
    if ParseInt(p).Some? then Some([ParseInt(p).value]) else None
  }

  /** Some part raises `ValueError`. */
  predicate SomePartFails(parts: seq<string>) {
    exists i :: 0 <= i < |parts| && ParsePart(parts[i]).None?
  }

  /** Parses every part with `parse` and concatenates the results; one failure fails all. */
  function ParseEach(parts: seq<string>, parse: string -> Option<seq<int>>): Option<seq<int>> {
    if |parts| == 0 then Some([])
    else
      var head, tail := parse(parts[0]), ParseEach(parts[1..], parse);
      if head.Some? && tail.Some? then Some(head.value + tail.value) else None
  }

  lemma {:induction false} ParseEachFails(parts: seq<string>, parse: string -> Option<seq<int>>)
    ensures ParseEach(parts, parse).None? <==> exists i :: 0 <= i < |parts| && parse(parts[i]).None?
    decreases |parts|
  {
    if |parts| > 0 {
      ParseEachFails(parts[1..], parse);
      if exists i :: 0 <= i < |parts[1..]| && parse(parts[1..][i]).None? {
        var i :| 0 <= i < |parts[1..]| && parse(parts[1..][i]).None?;
        assert parts[i + 1] == parts[1..][i];
      }
      if exists i :: 0 <= i < |parts| && parse(parts[i]).None? {
        var i :| 0 <= i < |parts| && parse(parts[i]).None?;
        if i > 0 {
          assert parts[1..][i - 1] == parts[i];
        }
      }
    }
  }

  function ParseParts(parts: seq<string>): Option<seq<int>> {
    ParseEach(parts, ParsePart)
  }

  /** Parsing fails exactly when one of the parts does. */
  lemma ParsePartsFails(parts: seq<string>)
    ensures ParseParts(parts).None? <==> SomePartFails(parts)
  {
    ParseEachFails(parts, ParsePart);
  }

  /** The ids `--queue` names, in order and with repeats, or `None` when parsing raises. */
  function ParseQueueArg(arg: string): (r: Option<seq<int>>)
    ensures r.None? <==> SomePartFails(Split(arg, ','))
  {
    ParsePartsFails(Split(arg, ','));
    ParseParts(Split(arg, ','))
  }

  /** `str(id)` for each id. */
  function Decimals(ids: seq<nat>): (r: seq<string>)
    ensures |r| == |ids|
    ensures forall k :: 0 <= k < |r| ==> r[k] == NatToString(ids[k])
  {
    if |ids| == 0 then [] else [NatToString(ids[0])] + Decimals(ids[1..])
  }

  lemma ParseDecimal(n: nat)
    ensures ParsePart(NatToString(n)) == Some([n as int])
  {
    var s := NatToString(n);
    StripNoSpaceEnds(s);
    ParseIntDigits(s);
  }

  lemma {:induction false} ParseDecimals(ids: seq<nat>)
    ensures ParseParts(Decimals(ids)) == Some(ids)
    decreases |ids|
  {
    if |ids| > 0 {
      var parts := Decimals(ids);
      ParseDecimal(ids[0]);
      ParseDecimals(ids[1..]);
      assert parts[0] == NatToString(ids[0]);
      assert parts[1..] == Decimals(ids[1..]);
      assert ParsePart(parts[0]) == Some([ids[0] as int]);
      assert ParseParts(parts[1..]) == Some(ids[1..]);
      assert [ids[0] as int] + ids[1..] == ids;
    }
  }

  /** A digit string holds no separator. */
  lemma DigitsFree(s: string, c: char)
    requires IsDigits(s) && !IsDigit(c)
    ensures c !in s
  {
  }

  /** A comma-separated list of ids reads back as those ids. */
  lemma ParseQueueList(ids: seq<nat>)
    requires |ids| > 0
    ensures ParseQueueArg(Join(Decimals(ids), ',')) == Some(ids)
  {
    var parts := Decimals(ids);
    forall i | 0 <= i < |parts|
      ensures ',' !in parts[i]
    {
      DigitsFree(parts[i], ',');
    }
    SplitJoin(parts, ',');
    ParseDecimals(ids);
  }

  /** `sa-sb` splits at its one `-`. */
  lemma RangeSplits(sa: string, sb: string)
    requires IsDigits(sa) && IsDigits(sb)
    ensures var p := sa + "-" + sb;
            ',' !in p && '-' in p && Strip(p) == p && Split(p, '-') == [sa, sb]
  {
    var p := sa + "-" + sb;
    DigitsFree(sa, ',');
    DigitsFree(sb, ',');
    DigitsFree(sa, '-');
    DigitsFree(sb, '-');
    assert p == sa + ['-'] + sb;
    assert p[|sa|] == '-';
    StripNoSpaceEnds(p);
    SplitAround(sa, sb, '-');
    SplitFree(sa, '-');
    SplitFree(sb, '-');
  }

  lemma RangePartParses(p: string, sa: string, sb: string, a: int, b: int)
    requires Strip(p) == p && '-' in p && Split(p, '-') == [sa, sb]
    requires ParseInt(sa) == Some(a) && ParseInt(sb) == Some(b)
    ensures ParsePart(p) == Some(Range(a, b + 1))
  {
    assert ParsePart(p) == ParseRange(Split(p, '-'));
    RangePieces([sa, sb], a, b);
  }

  lemma RangePieces(pieces: seq<string>, a: int, b: int)
    requires |pieces| == 2 && ParseInt(pieces[0]) == Some(a) && ParseInt(pieces[1]) == Some(b)
    ensures ParseRange(pieces) == Some(Range(a, b + 1))
  {
  }

  /** `int(str(n)) == n`. */
  lemma ParseNat(n: nat)
    ensures ParseInt(NatToString(n)) == Some(n as int)
  {
    ParseIntDigits(NatToString(n));
  }

  /** `a-b` reads as every id from `a` to `b`, inclusive. */
  lemma ParseQueueRange(a: nat, b: nat)
    ensures ParseQueueArg(NatToString(a) + "-" + NatToString(b)) == Some(Range(a, b + 1))
  {
    var sa, sb := NatToString(a), NatToString(b);
    var p := sa + "-" + sb;
    RangeSplits(sa, sb);
    ParseNat(a);
    ParseNat(b);
    RangePartParses(p, sa, sb, a, b);
    SplitFree(p, ',');
    OnePart(p);
  }

  lemma OnePart(p: string)
    requires Split(p, ',') == [p]
    ensures ParseQueueArg(p) == ParsePart(p)
  {
    SinglePart(Split(p, ','));
  }

  lemma SinglePart(parts: seq<string>)
    requires |parts| == 1
    ensures ParseParts(parts) == ParsePart(parts[0])
  {
    EachSingle(parts, ParsePart);
  }

  lemma EachSingle(parts: seq<string>, parse: string -> Option<seq<int>>)
    requires |parts| == 1
    ensures ParseEach(parts, parse) == parse(parts[0])
  {
    assert parts[1..] == [];
    var h := parse(parts[0]);
    if h.Some? {
      assert h.value + [] == h.value;
    }
  }

  /** A negative id cannot be given: its `-` is read as a range with an empty start. */
  lemma NegativeIdRejected(n: nat)
    ensures ParseQueueArg("-" + NatToString(n)) == None
  {
    var s := NatToString(n);
    var p := "-" + s;
    DigitsFree(s, ',');
    assert ',' !in p;
    SplitFree(p, ',');
    StripNoSpaceEnds(p);
    assert p == "" + ['-'] + s;
    SplitAround("", s, '-');
    assert ParseInt("") == None;
    assert ParsePart(Split(p, ',')[0]).None?;
  }

  /** What one new download row is made of: the file id and the local path. */
  type Request = (int, Option<string>)

  /** The rows `queue_file` appends for `items`, numbered from `next`, all `queued`. */
  function NewRows(next: nat, items: seq<Request>): (r: seq<Catalog.Download>)
    decreases |items|
    ensures |r| == |items|
    ensures forall k :: 0 <= k < |r| ==>
              r[k] == Catalog.Download(next + k, items[k].0, None, items[k].1, Catalog.Queued, None)
  {
    if |items| == 0 then [] else [Catalog.Download(next, items[0].0, None, items[0].1, Catalog.Queued, None)] + NewRows(next + 1, items[1..])
  }

  /** The database after appending `items` to the queue. */
  function Appended(db: Catalog.Db, items: seq<Request>): Catalog.Db {
    db.(downloads := db.downloads + NewRows(db.nextDownload, items), nextDownload := db.nextDownload + |items|)
  }

  lemma AppendedStep(db: Catalog.Db, item: Request, items: seq<Request>)
    ensures Appended(Catalog.QueueFile(db, item.0, item.1, None), items) == Appended(db, [item] + items)
  {
    AppendedShift(db, Catalog.QueueFile(db, item.0, item.1, None), item, items);
  }

  lemma AppendedShift(db: Catalog.Db, q: Catalog.Db, item: Request, items: seq<Request>)
    requires q == db.(downloads := db.downloads + [Catalog.Download(db.nextDownload, item.0, None, item.1, Catalog.Queued, None)],
                      nextDownload := db.nextDownload + 1)
    ensures Appended(q, items) == Appended(db, [item] + items)
  {
    var row := Catalog.Download(db.nextDownload, item.0, None, item.1, Catalog.Queued, None);
    NewRowsCons(db.nextDownload, item, items);
    AppendAssoc(db.downloads, [row], NewRows(db.nextDownload + 1, items));
  }

  lemma NewRowsCons(next: nat, item: Request, items: seq<Request>)
    ensures NewRows(next, [item] + items)
         == [Catalog.Download(next, item.0, None, item.1, Catalog.Queued, None)] + NewRows(next + 1, items)
  {
    assert ([item] + items)[1..] == items;
  }

  lemma AppendAssoc<T>(a: seq<T>, b: seq<T>, c: seq<T>)
    ensures a + b + c == a + (b + c)
  {
  }

  /** The ids that name a catalogued file, in order, repeats kept. */
  function Found(files: seq<Catalog.FileRow>, ids: seq<int>): (r: seq<Request>)
    ensures |r| <= |ids|
    ensures forall k :: 0 <= k < |r| ==> r[k].0 in ids && Catalog.FileWithId(files, r[k].0).Some? && r[k].1 == None
    ensures forall id :: id in ids && Catalog.FileWithId(files, id).Some? ==> (id, None) in r
  {
    if |ids| == 0 then []
    else
      var rest := Found(files, ids[1..]);
      if Catalog.FileWithId(files, ids[0]).Some? then [(ids[0], None)] + rest else rest
  }

  /**
   The ids the queue loop gets through: those before the first one outside
   SQLite's integer range, where `get_file_by_id` raises `OverflowError`.
   */
  function FitPrefix(ids: seq<int>): (r: seq<int>)
    ensures r <= ids
    ensures forall k :: 0 <= k < |r| ==> FitsInteger(r[k])
    ensures |r| < |ids| ==> !FitsInteger(ids[|r|])
    decreases |ids|
  {
    if |ids| == 0 || !FitsInteger(ids[0]) then []
    else [ids[0]] + FitPrefix(ids[1..])
  }

  /** Some id lies outside SQLite's integer range. */
  predicate SomeOverflows(ids: seq<int>) {
    exists k :: 0 <= k < |ids| && !FitsInteger(ids[k])
  }

  /**
   The queue loop: each catalogued id gets a `queued` row with no local
   path, and an unknown one is reported and skipped. An id beyond SQLite's
   integer range raises in the lookup and ends the command; the rows queued
   before it stay, since every `queue_file` commits. The result is the
   database, the rows added, and whether the loop was cut short.
   */
  function QueueIds(db: Catalog.Db, ids: seq<int>): (r: (Catalog.Db, nat, bool))
    ensures r.0 == Appended(db, Found(db.files, FitPrefix(ids)))
    ensures r.1 == |Found(db.files, FitPrefix(ids))|
    ensures r.2 <==> SomeOverflows(ids)
    ensures Catalog.Valid(db) ==> Catalog.Valid(r.0)
    decreases |ids|
  {
    if |ids| == 0 then
      assert db.downloads + [] == db.downloads;
      (db, 0, false)
    else if !FitsInteger(ids[0]) then
      assert db.downloads + [] == db.downloads;
      (db, 0, true)
    else
      var r := QueueIdsFrom(db, ids);
      OverflowsCons(ids);
      r
  }

  /** One loop step for an id within range. */
  function QueueIdsFrom(db: Catalog.Db, ids: seq<int>): (r: (Catalog.Db, nat, bool))
    requires |ids| > 0 && FitsInteger(ids[0])
    ensures r.0 == Appended(db, Found(db.files, FitPrefix(ids)))
    ensures r.1 == |Found(db.files, FitPrefix(ids))|
    ensures r.2 <==> SomeOverflows(ids[1..])
    ensures Catalog.Valid(db) ==> Catalog.Valid(r.0)
    decreases |ids|, 0
  {
    var prefix := FitPrefix(ids);
    assert prefix == [ids[0]] + FitPrefix(ids[1..]);
    assert prefix[1..] == FitPrefix(ids[1..]);
    if Catalog.GetFileById(db, ids[0]).Some? then
      var db1 := Catalog.QueueFile(db, ids[0], None, None);
      AppendedStep(db, (ids[0], None), Found(db.files, FitPrefix(ids[1..])));
      var r := QueueIds(db1, ids[1..]);
      (r.0, 1 + r.1, r.2)
    else
      QueueIds(db, ids[1..])
  }

  lemma OverflowsCons(ids: seq<int>)
    requires |ids| > 0 && FitsInteger(ids[0])
    ensures SomeOverflows(ids) <==> SomeOverflows(ids[1..])
  {
    if SomeOverflows(ids) {
      var k :| 0 <= k < |ids| && !FitsInteger(ids[k]);
      assert ids[1..][k - 1] == ids[k];
    }
    if SomeOverflows(ids[1..]) {
      var k :| 0 <= k < |ids| - 1 && !FitsInteger(ids[1..][k]);
      assert ids[k + 1] == ids[1..][k];
    }
  }

  /**
   How `--queue ARG` ends: an empty argument is false, so the command falls
   through to printing the help; a part that does not parse raises
   `ValueError` before anything is queued; otherwise the loop runs.
   */
  datatype QueueOutcome = PrintsHelp | ParseFails | Ran(db: Catalog.Db, queued: nat, overflowed: bool)

  /**
   `--queue ARG`: every part is parsed first, so a part that does not parse
   raises before anything is queued; otherwise the catalogued ids are queued,
   up to the first id beyond SQLite's integer range.
   */
  function QueueCommand(db: Catalog.Db, arg: string): (r: QueueOutcome)
    ensures r.PrintsHelp? <==> arg == ""
    ensures r.ParseFails? <==> arg != "" && SomePartFails(Split(arg, ','))
    ensures r.Ran? ==> var ids := ParseQueueArg(arg).value;
                       var found := Found(db.files, FitPrefix(ids));
                       && r.db == Appended(db, found) && r.queued == |found|
                       && (r.overflowed <==> SomeOverflows(ids))
  {
    if arg == "" then PrintsHelp
    else match ParseQueueArg(arg)
      case None => ParseFails
      case Some(ids) =>
        var q := QueueIds(db, ids);
        Ran(q.0, q.1, q.2)
  }

  /**
   `--queue a,BIG,b` with `a` catalogued and `BIG` beyond SQLite's integer
   range queues `a`, then raises: `b` is never looked at.
   */
  lemma OverflowEndsQueue(db: Catalog.Db, a: nat, big: nat, b: nat)
    requires FitsInteger(a) && !FitsInteger(big)
    requires Catalog.GetFileById(db, a).Some?
    ensures QueueCommand(db, Join([NatToString(a), NatToString(big), NatToString(b)], ','))
         == Ran(Catalog.QueueFile(db, a, None, None), 1, true)
  {
    var ns: seq<nat> := [a, big, b];
    var arg := Join(Decimals(ns), ',');
    assert Decimals(ns) == [NatToString(a), NatToString(big), NatToString(b)];
    ParseQueueList(ns);
    EmptyArgFails();
    CommandRuns(db, arg, ns);
    assert ns == [a as int, big as int, b as int];
    QueueIdsStops(db, a, big, b);
  }

  lemma EmptyArgFails()
    ensures ParseQueueArg("") == None
  {
    assert Split("", ',') == [""];
    EmptyPartFails();
    assert SomePartFails([""]) by {
      assert ParsePart([""][0]).None?;
    }
  }

  lemma EmptyPartFails()
    ensures ParsePart("") == None
  {
    StripNoSpaceEnds("");
    assert !IntLiteral("");
  }

  lemma CommandRuns(db: Catalog.Db, arg: string, ids: seq<int>)
    requires arg != "" && ParseQueueArg(arg) == Some(ids)
    ensures QueueCommand(db, arg) == Ran(QueueIds(db, ids).0, QueueIds(db, ids).1, QueueIds(db, ids).2)
  {
  }

  lemma QueueIdsStops(db: Catalog.Db, a: int, big: int, b: int)
    requires FitsInteger(a) && !FitsInteger(big)
    requires Catalog.GetFileById(db, a).Some?
    ensures QueueIds(db, [a, big, b]) == (Catalog.QueueFile(db, a, None, None), 1, true)
  {
    var ids := [a, big, b];
    var db1 := Catalog.QueueFile(db, a, None, None);
    assert ids[1..] == [big, b];
    assert QueueIds(db1, [big, b]) == (db1, 0, true);
    assert QueueIdsFrom(db, ids) == (db1, 1, true);
  }

  /** Queueing the same catalogued id twice in one command queues it twice. */
  lemma QueueCommandKeepsRepeats(db: Catalog.Db, n: nat)
    requires FitsInteger(n) && Catalog.GetFileById(db, n).Some?
    ensures var r := QueueCommand(db, Join([NatToString(n), NatToString(n)], ','));
            r.Ran? && r.queued == 2 && !r.overflowed
  {
    ParseQueueList([n, n]);
    var ids := [n as int, n as int];
    assert FitPrefix(ids[1..][1..]) == [];
    assert FitPrefix(ids) == ids;
    assert Found(db.files, ids) == [(n, None), (n, None)];
  }

  // ---------------------------------------------------------------------------
  // POST /api/queue/add
  // ---------------------------------------------------------------------------

  /** A value in the request's JSON `file_ids` list. Numbers with a fraction are not modelled. */
  datatype JsonValue = JInt(i: int) | JStr(s: string) | JBool(b: bool) | JNull | JContainer

  /** `str(v)`; a list or object never reaches the point where its text matters. */
  function PyStr(v: JsonValue): string {
    match v
    case JInt(i) => IntToString(i)
    case JStr(s) => s
    case JBool(b) => if b then "True" else "False"
    case JNull => "None"
    case JContainer => ""
  }

  /** `int(v)`: booleans are 1 and 0, text goes through `int()`, null and containers raise. */
  function PyInt(v: JsonValue): Option<int> {
    match v
    case JInt(i) => Some(i)
    case JStr(s) => ParseInt(s)
    case JBool(b) => Some(if b then 1 else 0)
    case JNull => None
    case JContainer => None
  }

  /** SQLite stores signed 64-bit integers; binding a larger Python int raises `OverflowError`. */
  predicate FitsInteger(i: int) {
    -0x8000_0000_0000_0000 <= i < 0x8000_0000_0000_0000
  }

  /** The id this entry is queued under, if queueing it does not raise. */
  function QueueableId(v: JsonValue): (r: Option<int>)
    ensures r.Some? ==> FitsInteger(r.value)
  {
    match PyInt(v)
    case Some(i) => if FitsInteger(i) then Some(i) else None
    case None => None
  }

  /** `destinations.get(str(file_id))`. */
  function Destination(v: JsonValue, destinations: map<string, string>): Option<string> {
    if PyStr(v) in destinations then Some(destinations[PyStr(v)]) else None
  }

  /** The entries that convert to an id, each with its destination. */
  function Convertible(ids: seq<JsonValue>, destinations: map<string, string>): (r: seq<Request>)
    ensures |r| <= |ids|
    ensures forall k :: 0 <= k < |r| ==> FitsInteger(r[k].0)
    ensures (forall k :: 0 <= k < |ids| ==> QueueableId(ids[k]).Some?) ==> |r| == |ids|
  {
    if |ids| == 0 then []
    else
      var rest := Convertible(ids[1..], destinations);
      assert (forall k :: 0 <= k < |ids| ==> QueueableId(ids[k]).Some?) ==>
             (forall k :: 0 <= k < |ids| - 1 ==> QueueableId(ids[1..][k]).Some?) by {
        assert forall k :: 0 <= k < |ids| - 1 ==> ids[1..][k] == ids[k + 1];
      }
      match QueueableId(ids[0])
      case Some(id) => [(id, Destination(ids[0], destinations))] + rest
      case None => rest
  }

  /** Each entry queued with its destination as local path; an entry that raises is skipped. */
  function QueueEntries(db: Catalog.Db, ids: seq<JsonValue>, destinations: map<string, string>): (r: (Catalog.Db, nat))
    ensures r.0 == Appended(db, Convertible(ids, destinations))
    ensures r.1 == |Convertible(ids, destinations)|
    ensures Catalog.Valid(db) ==> Catalog.Valid(r.0)
    decreases |ids|
  {
    if |ids| == 0 then
      assert db.downloads + [] == db.downloads;
      (db, 0)
    else match QueueableId(ids[0])
      case Some(id) =>
        var item := (id, Destination(ids[0], destinations));
        AppendedStep(db, item, Convertible(ids[1..], destinations));
        var r := QueueEntries(Catalog.QueueFile(db, id, item.1, None), ids[1..], destinations);
        (r.0, 1 + r.1)
      case None => QueueEntries(db, ids[1..], destinations)
  }

  datatype AddResponse = NoFilesSpecified | QueuedFiles(count: nat)

  /**
   `add_to_queue`: an empty (or missing) `file_ids` is answered with 400 and
   changes nothing; otherwise every entry that converts to an id is queued,
   whether or not such a file is catalogued, and the count says how many.
   */
  function AddToQueue(db: Catalog.Db, fileIds: seq<JsonValue>, destinations: map<string, string>): (r: (Catalog.Db, AddResponse))
    ensures r.1 == NoFilesSpecified <==> |fileIds| == 0
    ensures r.1 == NoFilesSpecified ==> r.0 == db
    ensures r.1.QueuedFiles? ==> var items := Convertible(fileIds, destinations);
                                 r.1.count == |items| && r.0 == Appended(db, items)
    ensures Catalog.Valid(db) ==> Catalog.Valid(r.0)
  {
    if |fileIds| == 0 then (db, NoFilesSpecified)
    else
      var q := QueueEntries(db, fileIds, destinations);
      (q.0, QueuedFiles(q.1))
  }

  /**
   A numeric id is queued with the destination stored under its decimal text,
   even when no file has that id; such a row never appears in the queue
   listing, which joins on the file.
   */
  lemma AddOneId(db: Catalog.Db, id: int, destinations: map<string, string>)
    requires FitsInteger(id)
    ensures var r := AddToQueue(db, [JInt(id)], destinations);
            var dest := if IntToString(id) in destinations then Some(destinations[IntToString(id)]) else None;
            && r.1 == QueuedFiles(1)
            && r.0.downloads == db.downloads + [Catalog.Download(db.nextDownload, id, None, dest, Catalog.Queued, None)]
            && (Catalog.GetFileById(db, id).None? ==> Catalog.GetQueuedFiles(r.0) == Catalog.GetQueuedFiles(db))
  {
    var r := AddToQueue(db, [JInt(id)], destinations);
    var items := Convertible([JInt(id)], destinations);
    assert items == [(id, Destination(JInt(id), destinations))];
    assert r.0.downloads == db.downloads + [r.0.downloads[|db.downloads|]];
    if Catalog.GetFileById(db, id).None? {
      UnlistedAppend(db, r.0, r.0.downloads[|db.downloads|]);
    }
  }

  /** A queued row whose file is missing leaves the queue listing as it was. */
  lemma UnlistedAppend(db: Catalog.Db, db': Catalog.Db, d: Catalog.Download)
    requires db'.files == db.files && db'.downloads == db.downloads + [d]
    requires Catalog.GetFileById(db, d.fileId).None?
    ensures Catalog.GetQueuedFiles(db') == Catalog.GetQueuedFiles(db)
  {
    QueuedInSameFiles(db, db', db'.downloads);
    QueuedInAppendMissing(db, db.downloads, d);
  }

  lemma {:induction false} QueuedInAppendMissing(db: Catalog.Db, ds: seq<Catalog.Download>, d: Catalog.Download)
    requires Catalog.GetFileById(db, d.fileId).None?
    ensures Catalog.QueuedIn(db, ds + [d]) == Catalog.QueuedIn(db, ds)
    decreases |ds|
  {
    if |ds| == 0 {
      assert ds + [d] == [d];
      assert [d][1..] == [];
    } else {
      assert (ds + [d])[1..] == ds[1..] + [d];
      QueuedInAppendMissing(db, ds[1..], d);
    }
  }

  /** The listing depends on the downloads and on the files only. */
  lemma {:induction false} QueuedInSameFiles(db: Catalog.Db, db': Catalog.Db, ds: seq<Catalog.Download>)
    requires db'.files == db.files
    ensures Catalog.QueuedIn(db', ds) == Catalog.QueuedIn(db, ds)
    decreases |ds|
  {
    if |ds| > 0 {
      QueuedInSameFiles(db, db', ds[1..]);
    }
  }

  lemma {:induction false} NothingConvertible(vs: seq<JsonValue>, destinations: map<string, string>)
    requires forall k :: 0 <= k < |vs| ==> QueueableId(vs[k]).None?
    ensures Convertible(vs, destinations) == []
    decreases |vs|
  {
    if |vs| > 0 {
      assert forall k :: 0 <= k < |vs| - 1 ==> vs[1..][k] == vs[k + 1];
      NothingConvertible(vs[1..], destinations);
    }
  }

  /**
   A request whose entries all raise (null, a list or object, text `int()`
   rejects, an id beyond SQLite's integer) still succeeds, with a count of
   0, and changes nothing.
   */
  lemma UnconvertibleEntriesSkipped(db: Catalog.Db, vs: seq<JsonValue>, destinations: map<string, string>)
    requires |vs| > 0 && forall k :: 0 <= k < |vs| ==> QueueableId(vs[k]).None?
    ensures AddToQueue(db, vs, destinations) == (db, QueuedFiles(0))
  {
    NothingConvertible(vs, destinations);
    assert db.downloads + NewRows(db.nextDownload, []) == db.downloads;
  }
}
