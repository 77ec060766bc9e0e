/**
 The scanner's catalogue (`Database` in `remote_scanner.py`) and the queue
 and statistics endpoints of `web_app.py` that work on it directly.

 The three tables are sequences of rows kept in ascending `id` order, each
 with the next id its `AUTOINCREMENT` counter will hand out (ids are never
 reused, even after a delete). Foreign keys are not enforced (SQLite leaves
 them off unless asked), so a download row may name a file that does not
 exist. Timestamps (`datetime.now().isoformat()`) are integers passed in as
 `now`; their text order is their time order.
 */
module Catalog {
  import opened Text
  import Sorting
  import SqlLike

  datatype FileRow = FileRow(id: nat, remotePath: string, filename: string, fileSize: int,
                             modifiedDate: string, serverAddedDate: string,
                             firstSeen: int, lastSeen: int, fileType: string)

  datatype Download = Download(id: nat, fileId: int, downloadDate: Option<int>, localPath: Option<string>,
                               status: string, notes: Option<string>)

  datatype Source = Source(id: nat, fileId: int, path: string, notes: Option<string>)

  datatype Db = Db(files: seq<FileRow>, downloads: seq<Download>, sources: seq<Source>,
                   nextFile: nat, nextDownload: nat, nextSource: nat)

  const Queued: string := "queued"
  const Noted: string := "noted"
  const Completed: string := "completed"
  const Failed: string := "failed"

  // ---------------------------------------------------------------------------
  // What the tables always satisfy
  // ---------------------------------------------------------------------------

  predicate FilesOrdered(fs: seq<FileRow>, next: nat) {
    && (forall i, j :: 0 <= i < j < |fs| ==> fs[i].id < fs[j].id)
    && (forall i :: 0 <= i < |fs| ==> fs[i].id < next)
  }

  /** `UNIQUE(remote_path, filename)`. */
  predicate KeysUnique(fs: seq<FileRow>) {
    forall i, j :: 0 <= i < j < |fs| ==> fs[i].remotePath != fs[j].remotePath || fs[i].filename != fs[j].filename
  }

  predicate DownloadsOrdered(ds: seq<Download>, next: nat) {
    && (forall i, j :: 0 <= i < j < |ds| ==> ds[i].id < ds[j].id)
    && (forall i :: 0 <= i < |ds| ==> ds[i].id < next)
  }

  predicate SourcesOrdered(ss: seq<Source>, next: nat) {
    && (forall i, j :: 0 <= i < j < |ss| ==> ss[i].id < ss[j].id)
    && (forall i :: 0 <= i < |ss| ==> ss[i].id < next)
  }

  predicate Valid(db: Db) {
    && FilesOrdered(db.files, db.nextFile) && KeysUnique(db.files)
    && DownloadsOrdered(db.downloads, db.nextDownload)
    && SourcesOrdered(db.sources, db.nextSource)
  }

  /** A freshly created database file. */
  function Empty(): (db: Db)
    ensures Valid(db) && db.files == [] && db.downloads == [] && db.sources == []
  {
    Db([], [], [], 1, 1, 1)
  }

  // ---------------------------------------------------------------------------
  // remote_files
  // ---------------------------------------------------------------------------

  /** The row `SELECT id FROM remote_files WHERE remote_path = ? AND filename = ?` finds. */
  function FindFile(fs: seq<FileRow>, remotePath: string, filename: string): (r: Option<nat>)
    ensures r.Some? ==> r.value < |fs| && fs[r.value].remotePath == remotePath && fs[r.value].filename == filename
    ensures r.None? <==> forall i :: 0 <= i < |fs| ==> fs[i].remotePath != remotePath || fs[i].filename != filename
  {
    if |fs| == 0 then None
    else if fs[0].remotePath == remotePath && fs[0].filename == filename then Some(0)
    else match FindFile(fs[1..], remotePath, filename)
      case None => None
      case Some(i) => Some(i + 1)
  }

  /**
   `add_or_update_file`: a known `(remote_path, filename)` gets the new size,
   dates and `last_seen` and keeps its id, `first_seen` and `file_type`; an
   unknown one is inserted with `first_seen = last_seen = now`. Returns the id.
   */
  function AddOrUpdateFile(db: Db, remotePath: string, filename: string, fileSize: int,
                           modifiedDate: string, serverAddedDate: string, fileType: string, now: int): (r: (Db, nat))
    ensures r.0.downloads == db.downloads && r.0.sources == db.sources
    ensures |db.files| <= |r.0.files| <= |db.files| + 1
    ensures FindFile(db.files, remotePath, filename).None? ==>
              && r.0.files == db.files + [FileRow(db.nextFile, remotePath, filename, fileSize, modifiedDate,
                                                  serverAddedDate, now, now, fileType)]
              && r.1 == db.nextFile && r.0.nextFile == db.nextFile + 1
    ensures FindFile(db.files, remotePath, filename).Some? ==>
              var i := FindFile(db.files, remotePath, filename).value;
              && |r.0.files| == |db.files| && r.1 == db.files[i].id && r.0.nextFile == db.nextFile
              && r.0.files[i].id == db.files[i].id
              && r.0.files[i].firstSeen == db.files[i].firstSeen
              && r.0.files[i].fileType == db.files[i].fileType
              && r.0.files[i].lastSeen == now && r.0.files[i].fileSize == fileSize
              && r.0.files[i].modifiedDate == modifiedDate && r.0.files[i].serverAddedDate == serverAddedDate
              && forall j :: 0 <= j < |db.files| && j != i ==> r.0.files[j] == db.files[j]
    ensures Valid(db) ==> Valid(r.0)
  {
    match FindFile(db.files, remotePath, filename)
    case Some(i) =>
      var f := db.files[i];
      var f' := f.(lastSeen := now, fileSize := fileSize, modifiedDate := modifiedDate, serverAddedDate := serverAddedDate);
      (db.(files := db.files[i := f']), f.id)
    case None =>
      var row := FileRow(db.nextFile, remotePath, filename, fileSize, modifiedDate, serverAddedDate, now, now, fileType);
      (db.(files := db.files + [row], nextFile := db.nextFile + 1), db.nextFile)
  }

  /** Afterwards the key is present exactly once, on the row whose id was returned. */
  lemma AddOrUpdateFindsKey(db: Db, remotePath: string, filename: string, fileSize: int,
                            modifiedDate: string, serverAddedDate: string, fileType: string, now: int)
    requires Valid(db)
    ensures var r := AddOrUpdateFile(db, remotePath, filename, fileSize, modifiedDate, serverAddedDate, fileType, now);
            var k := FindFile(r.0.files, remotePath, filename);
            && k.Some? && r.0.files[k.value].id == r.1 && r.0.files[k.value].lastSeen == now
            && GetFileById(r.0, r.1) == Some(r.0.files[k.value])
  {
    var r := AddOrUpdateFile(db, remotePath, filename, fileSize, modifiedDate, serverAddedDate, fileType, now);
    var k := FindFile(r.0.files, remotePath, filename);
    match FindFile(db.files, remotePath, filename)
    case Some(i) =>
      assert r.0.files[i].remotePath == remotePath && r.0.files[i].filename == filename;
      assert k.Some? && k.value == i;
    case None =>
      var n := |db.files|;
      assert r.0.files[n].remotePath == remotePath && r.0.files[n].filename == filename;
      assert k.Some? && k.value == n;
    IdLookup(r.0.files, k.value, r.0.nextFile);
  }

  /** Seeing the same file again never adds a row. */
  lemma RescanAddsNoRow(db: Db, remotePath: string, filename: string, fileSize: int,
                        modifiedDate: string, serverAddedDate: string, fileType: string, now: int)
    requires FindFile(db.files, remotePath, filename).Some?
    ensures |AddOrUpdateFile(db, remotePath, filename, fileSize, modifiedDate, serverAddedDate, fileType, now).0.files|
         == |db.files|
  {
  }

  /** `get_file_by_id`. */
  function GetFileById(db: Db, id: int): (r: Option<FileRow>)
    ensures r.Some? ==> r.value in db.files && r.value.id == id
    ensures r.None? <==> forall i :: 0 <= i < |db.files| ==> db.files[i].id != id
  {
    FileWithId(db.files, id)
  }

  function FileWithId(fs: seq<FileRow>, id: int): (r: Option<FileRow>)
    ensures r.Some? ==> r.value in fs && r.value.id == id
    ensures r.None? <==> forall i :: 0 <= i < |fs| ==> fs[i].id != id
  {
    if |fs| == 0 then None
    else if fs[0].id == id then Some(fs[0])
    else FileWithId(fs[1..], id)
  }

  /** With distinct ids, looking up a row's id finds that row. */
  lemma {:induction false} IdLookup(fs: seq<FileRow>, k: nat, next: nat)
    requires FilesOrdered(fs, next) && k < |fs|
    ensures FileWithId(fs, fs[k].id) == Some(fs[k])
    decreases |fs|
  {
    if k > 0 {
      assert fs[0].id < fs[k].id;
      assert FilesOrdered(fs[1..], next) by {
        assert forall i :: 0 <= i < |fs| - 1 ==> fs[1..][i] == fs[i + 1];
      }
      IdLookup(fs[1..], k - 1, next);
    }
  }

  // ---------------------------------------------------------------------------
  // downloads
  // ---------------------------------------------------------------------------

  /** `queue_file`: always a new `queued` row, whether or not the file exists or is queued already. */
  function QueueFile(db: Db, fileId: int, localPath: Option<string>, notes: Option<string>): (db': Db)
    ensures db'.files == db.files && db'.sources == db.sources
    ensures db'.downloads == db.downloads + [Download(db.nextDownload, fileId, None, localPath, Queued, notes)]
    ensures db'.nextDownload == db.nextDownload + 1
    ensures Valid(db) ==> Valid(db')
  {
    db.(downloads := db.downloads + [Download(db.nextDownload, fileId, None, localPath, Queued, notes)],
        nextDownload := db.nextDownload + 1)
  }

  /** The number of download rows with status `s`. */
  function CountStatus(ds: seq<Download>, s: string): (n: nat)
    ensures n <= |ds|
  {
    if |ds| == 0 then 0 else (if ds[0].status == s then 1 else 0) + CountStatus(ds[1..], s)
  }

  lemma {:induction false} CountStatusAppend(ds: seq<Download>, d: Download, s: string)
    ensures CountStatus(ds + [d], s) == CountStatus(ds, s) + (if d.status == s then 1 else 0)
    decreases |ds|
  {
    if |ds| == 0 {
      assert ds + [d] == [d];
      assert [d][1..] == [];
    } else {
      assert (ds + [d])[1..] == ds[1..] + [d];
      CountStatusAppend(ds[1..], d, s);
    }
  }

  /** Queueing the same file twice leaves two queued rows for it. */
  lemma QueueTwiceTwoRows(db: Db, fileId: int)
    ensures var db' := QueueFile(QueueFile(db, fileId, None, None), fileId, None, None);
            && CountStatus(db'.downloads, Queued) == CountStatus(db.downloads, Queued) + 2
            && db'.downloads[|db'.downloads| - 1].fileId == fileId
            && db'.downloads[|db'.downloads| - 2].fileId == fileId
  {
    var db1 := QueueFile(db, fileId, None, None);
    var db2 := QueueFile(db1, fileId, None, None);
    CountStatusAppend(db.downloads, db1.downloads[|db1.downloads| - 1], Queued);
    CountStatusAppend(db1.downloads, db2.downloads[|db2.downloads| - 1], Queued);
  }

  /** One row of `get_queued_files`. */
  datatype QueuedRow = QueuedRow(downloadId: nat, localPath: Option<string>, downloadNotes: Option<string>,
                                 fileId: nat, remotePath: string, filename: string, fileSize: int,
                                 modifiedDate: string, fileType: string)

  function QueuedRowOf(d: Download, f: FileRow): QueuedRow {
    QueuedRow(d.id, d.localPath, d.notes, f.id, f.remotePath, f.filename, f.fileSize, f.modifiedDate, f.fileType)
  }

  /** The queued rows among `ds` whose file exists, in the order of `ds`. */
  function QueuedIn(db: Db, ds: seq<Download>): (r: seq<QueuedRow>)
    ensures |r| <= |ds|
  {
    if |ds| == 0 then []
    else
      var rest := QueuedIn(db, ds[1..]);
      var d := ds[0];
      match GetFileById(db, d.fileId)
      case Some(f) => if d.status == Queued then [QueuedRowOf(d, f)] + rest else rest
      case None => rest
  }

  /**
   `get_queued_files`: the `queued` downloads joined to their file, by
   ascending download id. A queued row naming a missing file is not listed.
   */
  function GetQueuedFiles(db: Db): (r: seq<QueuedRow>)
    ensures |r| <= CountStatus(db.downloads, Queued)
  {
    QueuedCount(db, db.downloads);
    QueuedIn(db, db.downloads)
  }

  lemma {:induction false} QueuedCount(db: Db, ds: seq<Download>)
    ensures |QueuedIn(db, ds)| <= CountStatus(ds, Queued)
    decreases |ds|
  {
    if |ds| > 0 {
      QueuedCount(db, ds[1..]);
    }
  }

  /** Download `d` is listed as `q`: it is queued, its file exists and `q` joins the two. */
  predicate ListedAs(db: Db, d: Download, q: QueuedRow) {
    d.status == Queued && GetFileById(db, d.fileId).Some? && q == QueuedRowOf(d, GetFileById(db, d.fileId).value)
  }

  /** A row is listed exactly when it joins a queued download to its existing file. */
  lemma {:induction false} QueuedInMembership(db: Db, ds: seq<Download>, q: QueuedRow)
    ensures q in QueuedIn(db, ds) <==> exists i :: 0 <= i < |ds| && ListedAs(db, ds[i], q)
    decreases |ds|
  {
    if |ds| > 0 {
      QueuedInMembership(db, ds[1..], q);
      assert forall i :: 1 <= i < |ds| ==> ds[i] == ds[1..][i - 1];
      if exists i :: 0 <= i < |ds| && ListedAs(db, ds[i], q) {
        var i :| 0 <= i < |ds| && ListedAs(db, ds[i], q);
        if i > 0 {
          assert ListedAs(db, ds[1..][i - 1], q);
        }
      }
    }
  }

  /** `get_queued_files` lists exactly the queued downloads whose file exists. */
  lemma GetQueuedFilesMembership(db: Db, q: QueuedRow)
    ensures q in GetQueuedFiles(db) <==> exists i :: 0 <= i < |db.downloads| && ListedAs(db, db.downloads[i], q)
  {
    QueuedInMembership(db, db.downloads, q);
  }

  /** Every listed id is one of the downloads' ids, so a bound on those bounds the listing. */
  lemma {:induction false} QueuedInAbove(db: Db, ds: seq<Download>, m: int)
    requires forall i :: 0 <= i < |ds| ==> m < ds[i].id
    ensures forall k :: 0 <= k < |QueuedIn(db, ds)| ==> m < QueuedIn(db, ds)[k].downloadId
    decreases |ds|
  {
    if |ds| > 0 {
      assert forall i :: 0 <= i < |ds| - 1 ==> ds[1..][i] == ds[i + 1];
      QueuedInAbove(db, ds[1..], m);
      var rest := QueuedIn(db, ds[1..]);
      if QueuedIn(db, ds) != rest {
        var q := QueuedRowOf(ds[0], GetFileById(db, ds[0].fileId).value);
        assert QueuedIn(db, ds) == [q] + rest;
        assert q.downloadId == ds[0].id > m;
        ConsAbove(q, rest, m);
      }
    }
  }

  lemma ConsAbove(q: QueuedRow, rest: seq<QueuedRow>, m: int)
    requires m < q.downloadId
    requires forall k :: 0 <= k < |rest| ==> m < rest[k].downloadId
    ensures forall k :: 0 <= k < |[q] + rest| ==> m < ([q] + rest)[k].downloadId
  {
    assert forall k :: 0 <= k < |rest| ==> ([q] + rest)[k + 1] == rest[k];
  }

  predicate AscendingIds(r: seq<QueuedRow>) {
    forall a, b :: 0 <= a < b < |r| ==> r[a].downloadId < r[b].downloadId
  }

  /** Under a well-formed table the listing is in ascending download id. */
  lemma {:induction false} QueuedInAscending(db: Db, ds: seq<Download>, next: nat)
    requires DownloadsOrdered(ds, next)
    ensures AscendingIds(QueuedIn(db, ds))
    decreases |ds|
  {
    if |ds| > 0 {
      assert forall i :: 0 <= i < |ds| - 1 ==> ds[1..][i] == ds[i + 1];
      assert DownloadsOrdered(ds[1..], next);
      QueuedInAscending(db, ds[1..], next);
      QueuedInAbove(db, ds[1..], ds[0].id);
      var rest := QueuedIn(db, ds[1..]);
      if QueuedIn(db, ds) != rest {
        var q := QueuedRowOf(ds[0], GetFileById(db, ds[0].fileId).value);
        assert QueuedIn(db, ds) == [q] + rest;
        assert q.downloadId == ds[0].id;
        PrependAscending(q, rest);
      }
    }
  }

  lemma PrependAscending(q: QueuedRow, rest: seq<QueuedRow>)
    requires AscendingIds(rest) && forall k :: 0 <= k < |rest| ==> q.downloadId < rest[k].downloadId
    ensures AscendingIds([q] + rest)
  {
    var r := [q] + rest;
    forall a, b | 0 <= a < b < |r|
      ensures r[a].downloadId < r[b].downloadId
    {
      assert r[b] == rest[b - 1];
      if a > 0 {
        assert r[a] == rest[a - 1];
      }
    }
  }

  lemma GetQueuedFilesAscending(db: Db)
    requires Valid(db)
    ensures AscendingIds(GetQueuedFiles(db))
  {
    QueuedInAscending(db, db.downloads, db.nextDownload);
  }

  /** A path was given: `if local_path:` is false for `None` and for the empty string. */
  predicate Given(p: Option<string>) {
    p.Some? && p.value != ""
  }

  function SetStatus(d: Download, status: string, localPath: Option<string>, now: int): Download {
    d.(status := status, downloadDate := Some(now), localPath := if Given(localPath) then localPath else d.localPath)
  }

  /**
   `update_download_status`: the row with that id gets the status and the
   date whatever its status was; its local path changes only when one is given.
   */
  function UpdateDownloadStatus(db: Db, downloadId: int, status: string, localPath: Option<string>, now: int): (db': Db)
    ensures db'.files == db.files && db'.sources == db.sources && db'.nextDownload == db.nextDownload
    ensures |db'.downloads| == |db.downloads|
    ensures forall i :: 0 <= i < |db.downloads| ==>
              var d, d' := db.downloads[i], db'.downloads[i];
              && d'.id == d.id && d'.fileId == d.fileId && d'.notes == d.notes
              && (d.id != downloadId ==> d' == d)
              && (d.id == downloadId ==> d'.status == status && d'.downloadDate == Some(now))
              && (d.id == downloadId && !Given(localPath) ==> d'.localPath == d.localPath)
              && (d.id == downloadId && Given(localPath) ==> d'.localPath == localPath)
    ensures Valid(db) ==> Valid(db')
  {
    var ds := db.downloads;
    var ds' := seq(|ds|, i requires 0 <= i < |ds| => if ds[i].id == downloadId then SetStatus(ds[i], status, localPath, now) else ds[i]);
    db.(downloads := ds')
  }

  /** No transition is refused: a completed download can be put back to `queued`. */
  lemma CompletedCanBeRequeued(db: Db, i: nat, now: int)
    requires i < |db.downloads| && db.downloads[i].status == Completed
    requires Valid(db)
    ensures UpdateDownloadStatus(db, db.downloads[i].id, Queued, None, now).downloads[i].status == Queued
  {
  }

  /** The position of the download row with the highest id for `fileId`, if any. */
  function LatestDownloadOf(ds: seq<Download>, fileId: int): (r: Option<nat>)
    ensures r.Some? ==> r.value < |ds| && ds[r.value].fileId == fileId
                        && forall j :: 0 <= j < |ds| && ds[j].fileId == fileId ==> ds[j].id <= ds[r.value].id
    ensures r.None? <==> forall j :: 0 <= j < |ds| ==> ds[j].fileId != fileId
    decreases |ds|
  {
    if |ds| == 0 then None
    else
      var i := |ds| - 1;
      match LatestDownloadOf(ds[..i], fileId)
      case None => if ds[i].fileId == fileId then Some(i) else None
      case Some(j) =>
        if ds[i].fileId == fileId && ds[i].id >= ds[j].id then Some(i) else Some(j)
  }

  /**
   `add_note`: the notes go on the file's download row with the highest id;
   without any, a new row with status `noted` is added for them.
   */
  function AddNote(db: Db, fileId: int, notes: string): (db': Db)
    ensures db'.files == db.files && db'.sources == db.sources
    ensures LatestDownloadOf(db.downloads, fileId).Some? ==>
              var i := LatestDownloadOf(db.downloads, fileId).value;
              db'.downloads == db.downloads[i := db.downloads[i].(notes := Some(notes))]
    ensures LatestDownloadOf(db.downloads, fileId).None? ==>
              db'.downloads == db.downloads + [Download(db.nextDownload, fileId, None, None, Noted, Some(notes))]
    ensures Valid(db) ==> Valid(db')
  {
    match LatestDownloadOf(db.downloads, fileId)
    case Some(i) => db.(downloads := db.downloads[i := db.downloads[i].(notes := Some(notes))])
    case None =>
      db.(downloads := db.downloads + [Download(db.nextDownload, fileId, None, None, Noted, Some(notes))],
          nextDownload := db.nextDownload + 1)
  }

  /** A note never puts anything on the queue. */
  lemma AddNoteQueuesNothing(db: Db, fileId: int, notes: string)
    ensures CountStatus(AddNote(db, fileId, notes).downloads, Queued) == CountStatus(db.downloads, Queued)
  {
    match LatestDownloadOf(db.downloads, fileId)
    case Some(i) =>
      StatusCountsAfterUpdate(db.downloads, i, db.downloads[i].(notes := Some(notes)));
    case None =>
      CountStatusAppend(db.downloads, Download(db.nextDownload, fileId, None, None, Noted, Some(notes)), Queued);
  }

  lemma {:induction false} StatusCountsAfterUpdate(ds: seq<Download>, i: nat, d: Download)
    requires i < |ds| && d.status == ds[i].status
    ensures CountStatus(ds[i := d], Queued) == CountStatus(ds, Queued)
    decreases |ds|
  {
    if i > 0 {
      assert ds[i := d][1..] == ds[1..][i - 1 := d];
      StatusCountsAfterUpdate(ds[1..], i - 1, d);
    } else {
      assert ds[i := d][1..] == ds[1..];
    }
  }

  /** `add_source_file`. */
  function AddSourceFile(db: Db, fileId: int, path: string, notes: Option<string>): (db': Db)
    ensures db'.files == db.files && db'.downloads == db.downloads
    ensures db'.sources == db.sources + [Source(db.nextSource, fileId, path, notes)]
    ensures Valid(db) ==> Valid(db')
  {
    db.(sources := db.sources + [Source(db.nextSource, fileId, path, notes)], nextSource := db.nextSource + 1)
  }

  /** The download rows `keep` accepts, in order. */
  function KeepDownloads(ds: seq<Download>, keep: Download -> bool): (r: seq<Download>)
    ensures |r| <= |ds|
    ensures forall d :: d in r <==> d in ds && keep(d)
    ensures |r| == |ds| <==> forall i :: 0 <= i < |ds| ==> keep(ds[i])
    ensures forall n :: DownloadsOrdered(ds, n) ==> DownloadsOrdered(r, n)
    decreases |ds|
  {
    if |ds| == 0 then []
    else
      var rest := KeepDownloads(ds[1..], keep);
      if keep(ds[0]) then
        KeepHead(ds, rest, keep);
        [ds[0]] + rest
      else
        DropHead(ds, rest, keep);
        rest
  }

  /** The step of `KeepDownloads` that keeps the first row. */
  lemma KeepHead(ds: seq<Download>, rest: seq<Download>, keep: Download -> bool)
    requires |ds| > 0 && keep(ds[0])
    requires |rest| <= |ds| - 1
    requires forall d :: d in rest <==> d in ds[1..] && keep(d)
    requires |rest| == |ds| - 1 <==> forall i :: 0 <= i < |ds| - 1 ==> keep(ds[1..][i])
    requires forall n :: DownloadsOrdered(ds[1..], n) ==> DownloadsOrdered(rest, n)
    ensures forall d :: d in [ds[0]] + rest <==> d in ds && keep(d)
    ensures |[ds[0]] + rest| == |ds| <==> forall i :: 0 <= i < |ds| ==> keep(ds[i])
    ensures forall n :: DownloadsOrdered(ds, n) ==> DownloadsOrdered([ds[0]] + rest, n)
  {
    var r := [ds[0]] + rest;
    assert forall d :: d in ds <==> d == ds[0] || d in ds[1..];
    assert forall i :: 1 <= i < |ds| ==> ds[i] == ds[1..][i - 1];
    forall n | DownloadsOrdered(ds, n)
      ensures DownloadsOrdered(r, n)
    {
      assert DownloadsOrdered(ds[1..], n);
      assert forall k :: 0 <= k < |rest| ==> rest[k] in ds[1..];
    }
  }

  /** The step of `KeepDownloads` that drops the first row. */
  lemma DropHead(ds: seq<Download>, rest: seq<Download>, keep: Download -> bool)
    requires |ds| > 0 && !keep(ds[0])
    requires |rest| <= |ds| - 1
    requires forall d :: d in rest <==> d in ds[1..] && keep(d)
    requires forall n :: DownloadsOrdered(ds[1..], n) ==> DownloadsOrdered(rest, n)
    ensures forall d :: d in rest <==> d in ds && keep(d)
    ensures forall n :: DownloadsOrdered(ds, n) ==> DownloadsOrdered(rest, n)
  {
    assert forall d :: d in ds <==> d == ds[0] || d in ds[1..];
    forall n | DownloadsOrdered(ds, n)
      ensures DownloadsOrdered(ds[1..], n)
    {
    }
  }

  predicate NotQueued(d: Download) {
    d.status != Queued
  }

  /** `clear_queue`: `DELETE FROM downloads WHERE status = 'queued'`. */
  function ClearQueue(db: Db): (db': Db)
    ensures db'.files == db.files && db'.sources == db.sources && db'.nextDownload == db.nextDownload
    ensures forall d :: d in db'.downloads <==> d in db.downloads && d.status != Queued
    ensures Valid(db) ==> Valid(db')
  {
    db.(downloads := KeepDownloads(db.downloads, NotQueued))
  }

  lemma {:induction false} KeepNonQueuedCount(ds: seq<Download>, s: string)
    ensures CountStatus(KeepDownloads(ds, NotQueued), Queued) == 0
    ensures s != Queued ==> CountStatus(KeepDownloads(ds, NotQueued), s) == CountStatus(ds, s)
    decreases |ds|
  {
    if |ds| > 0 {
      KeepNonQueuedCount(ds[1..], s);
    }
  }

  /** After `clear_queue` nothing is queued, and completed, failed and noted rows are all still there. */
  lemma ClearQueueKeepsHistory(db: Db)
    ensures CountStatus(ClearQueue(db).downloads, Queued) == 0
    ensures CountStatus(ClearQueue(db).downloads, Completed) == CountStatus(db.downloads, Completed)
    ensures CountStatus(ClearQueue(db).downloads, Failed) == CountStatus(db.downloads, Failed)
    ensures CountStatus(ClearQueue(db).downloads, Noted) == CountStatus(db.downloads, Noted)
    ensures GetQueuedFiles(ClearQueue(db)) == []
  {
    KeepNonQueuedCount(db.downloads, Completed);
    KeepNonQueuedCount(db.downloads, Failed);
    KeepNonQueuedCount(db.downloads, Noted);
  }

  // ---------------------------------------------------------------------------
  // web_app: remove_from_queue and get_stats
  // ---------------------------------------------------------------------------

  predicate RemovableRow(d: Download, downloadId: int) {
    d.id == downloadId && d.status == Queued
  }

  /**
   `remove_from_queue`: `DELETE FROM downloads WHERE id = ? AND status = 'queued'`,
   reporting success (rather than 404) exactly when a row was deleted.
   */
  function RemoveFromQueue(db: Db, downloadId: int): (r: (Db, bool))
    ensures r.0.files == db.files && r.0.sources == db.sources && r.0.nextDownload == db.nextDownload
    ensures r.1 <==> exists i :: 0 <= i < |db.downloads| && RemovableRow(db.downloads[i], downloadId)
    ensures forall d :: d in r.0.downloads <==> d in db.downloads && !RemovableRow(d, downloadId)
    ensures Valid(db) ==> Valid(r.0)
  {
    var ds := KeepDownloads(db.downloads, d => !RemovableRow(d, downloadId));
    (db.(downloads := ds), |ds| < |db.downloads|)
  }

  /** Removing the one matching row leaves every other row, in order. */
  lemma {:induction false} KeepAllBut(ds: seq<Download>, i: nat, keep: Download -> bool)
    requires i < |ds| && !keep(ds[i])
    requires forall j :: 0 <= j < |ds| && j != i ==> keep(ds[j])
    ensures KeepDownloads(ds, keep) == ds[..i] + ds[i + 1..]
    decreases |ds|
  {
    KeepStep(ds, keep);
    if i == 0 {
      KeepEverything(ds[1..], keep);
      assert ds[..0] + ds[1..] == ds[1..];
    } else {
      KeepAllBut(ds[1..], i - 1, keep);
      DropAtCons(ds, i);
    }
  }

  lemma KeepStep(ds: seq<Download>, keep: Download -> bool)
    requires |ds| > 0
    ensures KeepDownloads(ds, keep) == (if keep(ds[0]) then [ds[0]] else []) + KeepDownloads(ds[1..], keep)
  {
  }

  lemma DropAtCons<T>(xs: seq<T>, i: nat)
    requires 0 < i < |xs|
    ensures [xs[0]] + (xs[1..][..i - 1] + xs[1..][i..]) == xs[..i] + xs[i + 1..]
  {
    assert xs[..i] == [xs[0]] + xs[1..][..i - 1];
    assert xs[i + 1..] == xs[1..][i..];
  }

  lemma {:induction false} KeepEverything(ds: seq<Download>, keep: Download -> bool)
    requires forall j :: 0 <= j < |ds| ==> keep(ds[j])
    ensures KeepDownloads(ds, keep) == ds
    decreases |ds|
  {
    if |ds| > 0 {
      KeepEverything(ds[1..], keep);
    }
  }

  /** With distinct ids a removal takes out exactly the one queued row and nothing else. */
  lemma RemoveFromQueueRemovesOne(db: Db, i: nat)
    requires Valid(db) && i < |db.downloads| && db.downloads[i].status == Queued
    ensures var r := RemoveFromQueue(db, db.downloads[i].id);
            r.1 && r.0.downloads == db.downloads[..i] + db.downloads[i + 1..]
  {
    var id := db.downloads[i].id;
    KeepAllBut(db.downloads, i, d => !RemovableRow(d, id));
  }

  /** A download that is not queued (any more) is never removed. */
  lemma RemoveProcessedRefused(db: Db, downloadId: int)
    requires forall i :: 0 <= i < |db.downloads| && db.downloads[i].id == downloadId ==> db.downloads[i].status != Queued
    ensures RemoveFromQueue(db, downloadId) == (db, false)
  {
    KeepEverything(db.downloads, d => !RemovableRow(d, downloadId));
  }

  /** `SUM(file_size)` over the rows, 0 for no rows. */
  function SumSizes(fs: seq<FileRow>): int {
    if |fs| == 0 then 0 else fs[0].fileSize + SumSizes(fs[1..])
  }

  lemma {:induction false} SumSizesAppend(fs: seq<FileRow>, f: FileRow)
    ensures SumSizes(fs + [f]) == SumSizes(fs) + f.fileSize
    decreases |fs|
  {
    if |fs| == 0 {
      assert fs + [f] == [f];
      assert [f][1..] == [];
    } else {
      assert (fs + [f])[1..] == fs[1..] + [f];
      SumSizesAppend(fs[1..], f);
    }
  }

  lemma {:induction false} SumSizesUpdate(fs: seq<FileRow>, i: nat, f: FileRow)
    requires i < |fs|
    ensures SumSizes(fs[i := f]) == SumSizes(fs) - fs[i].fileSize + f.fileSize
    decreases |fs|
  {
    if i > 0 {
      assert fs[i := f][1..] == fs[1..][i - 1 := f];
      SumSizesUpdate(fs[1..], i - 1, f);
    } else {
      assert fs[i := f][1..] == fs[1..];
    }
  }

  datatype Stats = Stats(totalFiles: nat, queuedFiles: nat, completedDownloads: nat, totalSizeBytes: int)

  /** `get_stats`: row counts and the sum of sizes (`SUM` over no rows is `NULL`, shown as 0). */
  function GetStats(db: Db): (s: Stats)
    ensures s.totalFiles == |db.files|
    ensures s.queuedFiles == CountStatus(db.downloads, Queued)
    ensures s.completedDownloads == CountStatus(db.downloads, Completed)
    ensures s.totalSizeBytes == SumSizes(db.files)
    ensures db.files == [] ==> s.totalSizeBytes == 0
    ensures (forall i :: 0 <= i < |db.files| ==> db.files[i].fileSize >= 0) ==> s.totalSizeBytes >= 0
  {
    SumNonNegative(db.files);
    Stats(|db.files|, CountStatus(db.downloads, Queued), CountStatus(db.downloads, Completed),
          if |db.files| == 0 then 0 else SumSizes(db.files))
  }

  lemma {:induction false} SumNonNegative(fs: seq<FileRow>)
    ensures (forall i :: 0 <= i < |fs| ==> fs[i].fileSize >= 0) ==> SumSizes(fs) >= 0
    decreases |fs|
  {
    if |fs| > 0 {
      SumNonNegative(fs[1..]);
      assert forall i :: 1 <= i < |fs| ==> fs[1..][i - 1] == fs[i];
    }
  }

  /**
   The total size follows the scans: a new file adds its size, a rescanned
   one replaces its old size by the new one.
   */
  lemma TotalSizeAfterAddOrUpdate(db: Db, remotePath: string, filename: string, fileSize: int,
                                  modifiedDate: string, serverAddedDate: string, fileType: string, now: int)
    ensures var db' := AddOrUpdateFile(db, remotePath, filename, fileSize, modifiedDate, serverAddedDate, fileType, now).0;
            match FindFile(db.files, remotePath, filename)
            case None => GetStats(db').totalSizeBytes == GetStats(db).totalSizeBytes + fileSize
            case Some(i) => GetStats(db').totalSizeBytes == GetStats(db).totalSizeBytes - db.files[i].fileSize + fileSize
  {
    var db' := AddOrUpdateFile(db, remotePath, filename, fileSize, modifiedDate, serverAddedDate, fileType, now).0;
    match FindFile(db.files, remotePath, filename)
    case None =>
      SumSizesAppend(db.files, db'.files[|db.files|]);
    case Some(i) =>
      assert db'.files == db.files[i := db'.files[i]];
      SumSizesUpdate(db.files, i, db'.files[i]);
  }

  /** Queueing adds one to the queued count; clearing the queue brings it to 0 and keeps completions. */
  lemma StatsAfterQueueAndClear(db: Db, fileId: int, localPath: Option<string>)
    ensures GetStats(QueueFile(db, fileId, localPath, None)).queuedFiles == GetStats(db).queuedFiles + 1
    ensures GetStats(ClearQueue(db)).queuedFiles == 0
    ensures GetStats(ClearQueue(db)).completedDownloads == GetStats(db).completedDownloads
  {
    CountStatusAppend(db.downloads, Download(db.nextDownload, fileId, None, localPath, Queued, None), Queued);
    ClearQueueKeepsHistory(db);
  }

  // ---------------------------------------------------------------------------
  // search_files
  // ---------------------------------------------------------------------------

  /** Text order of SQLite's default `BINARY` collation: character by character, a prefix first. */
  predicate StrLe(a: string, b: string)
    decreases |a|
  {
    |a| == 0 || (|b| > 0 && (a[0] < b[0] || (a[0] == b[0] && StrLe(a[1..], b[1..]))))
  }

  lemma {:induction false} StrLeTotal(a: string, b: string)
    ensures StrLe(a, b) || StrLe(b, a)
    decreases |a|
  {
    if |a| > 0 && |b| > 0 && a[0] == b[0] {
      StrLeTotal(a[1..], b[1..]);
    }
  }

  lemma {:induction false} StrLeTransitive(a: string, b: string, c: string)
    requires StrLe(a, b) && StrLe(b, c)
    ensures StrLe(a, c)
    decreases |a|
  {
    if |a| > 0 && a[0] == b[0] && b[0] == c[0] {
      StrLeTransitive(a[1..], b[1..], c[1..]);
    }
  }

  /** One result row: the file, then the download and source columns of the two `LEFT JOIN`s. */
  datatype SearchRow = SearchRow(file: FileRow, downloadStatus: Option<string>, downloadNotes: Option<string>,
                                 sourcePath: Option<string>)

  /** `ORDER BY rf.last_seen DESC, rf.filename`: `a` may be listed before `b`. */
  predicate ListedBefore(a: SearchRow, b: SearchRow) {
    a.file.lastSeen > b.file.lastSeen || (a.file.lastSeen == b.file.lastSeen && StrLe(a.file.filename, b.file.filename))
  }

  lemma ListedBeforeIsPreorder()
    ensures Sorting.TotalPreorder(ListedBefore)
  {
    forall a, b
      ensures ListedBefore(a, b) || ListedBefore(b, a)
    {
      StrLeTotal(a.file.filename, b.file.filename);
    }
    forall a, b, c | ListedBefore(a, b) && ListedBefore(b, c)
      ensures ListedBefore(a, c)
    {
      if a.file.lastSeen == b.file.lastSeen == c.file.lastSeen {
        StrLeTransitive(a.file.filename, b.file.filename, c.file.filename);
      }
    }
  }

  function DownloadsOf(ds: seq<Download>, fileId: int): (r: seq<Download>)
    ensures forall d :: d in r <==> d in ds && d.fileId == fileId
  {
    if |ds| == 0 then []
    else (if ds[0].fileId == fileId then [ds[0]] else []) + DownloadsOf(ds[1..], fileId)
  }

  function SourcesOf(ss: seq<Source>, fileId: int): (r: seq<Source>)
    ensures forall s :: s in r <==> s in ss && s.fileId == fileId
  {
    if |ss| == 0 then []
    else (if ss[0].fileId == fileId then [ss[0]] else []) + SourcesOf(ss[1..], fileId)
  }

  function RowOf(f: FileRow, d: Option<Download>, s: Option<Source>): SearchRow {
    SearchRow(f,
              if d.Some? then Some(d.value.status) else None,
              if d.Some? then d.value.notes else None,
              if s.Some? then Some(s.value.path) else None)
  }

  /** The rows for `f` and download side `d`: one per source, or one with no source. */
  function WithSources(f: FileRow, d: Option<Download>, ss: seq<Source>): (r: seq<SearchRow>)
    ensures |r| == if |ss| == 0 then 1 else |ss|
    ensures forall x :: x in r ==> x.file == f
  {
    if |ss| == 0 then [RowOf(f, d, None)]
    else seq(|ss|, i requires 0 <= i < |ss| => RowOf(f, d, Some(ss[i])))
  }

  function WithDownloads(f: FileRow, ds: seq<Download>, ss: seq<Source>): (r: seq<SearchRow>)
    ensures forall x :: x in r ==> x.file == f
  {
    if |ds| == 0 then [] else WithSources(f, Some(ds[0]), ss) + WithDownloads(f, ds[1..], ss)
  }

  /** The rows the two `LEFT JOIN`s produce for one file. */
  function JoinFile(f: FileRow, ds: seq<Download>, ss: seq<Source>): (r: seq<SearchRow>)
    ensures |r| > 0
    ensures forall x :: x in r ==> x.file == f
  {
    if |ds| == 0 then WithSources(f, None, ss)
    else
      assert WithSources(f, Some(ds[0]), ss)[0] in WithDownloads(f, ds, ss);
      WithDownloads(f, ds, ss)
  }

  function AtLeastOne(n: nat): nat {
    if n == 0 then 1 else n
  }

  /** A file shows up once per (download, source) pair, and at least once. */
  lemma {:induction false} JoinFileCount(f: FileRow, ds: seq<Download>, ss: seq<Source>)
    ensures |JoinFile(f, ds, ss)| == AtLeastOne(|ds|) * AtLeastOne(|ss|)
  {
    if |ds| > 0 {
      WithDownloadsCount(f, ds, ss);
    }
  }

  lemma {:induction false} WithDownloadsCount(f: FileRow, ds: seq<Download>, ss: seq<Source>)
    ensures |WithDownloads(f, ds, ss)| == |ds| * AtLeastOne(|ss|)
    decreases |ds|
  {
    if |ds| > 0 {
      WithDownloadsCount(f, ds[1..], ss);
    }
  }

  function FileRows(db: Db, f: FileRow): seq<SearchRow> {
    JoinFile(f, DownloadsOf(db.downloads, f.id), SourcesOf(db.sources, f.id))
  }

  /** The unfiltered join, file by file. */
  function JoinAll(db: Db, fs: seq<FileRow>): (r: seq<SearchRow>)
    ensures forall x :: x in r ==> x.file in fs
  {
    if |fs| == 0 then [] else FileRows(db, fs[0]) + JoinAll(db, fs[1..])
  }

  lemma {:induction false} JoinAllHasFile(db: Db, fs: seq<FileRow>, i: nat)
    requires i < |fs|
    ensures FileRows(db, fs[i])[0] in JoinAll(db, fs)
    decreases |fs|
  {
    if i > 0 {
      JoinAllHasFile(db, fs[1..], i - 1);
    }
  }

  /** The `WHERE` clause; an empty argument adds no condition (`if pattern:` is false for it). */
  predicate Matches(x: SearchRow, pattern: string, path: string, fileType: string) {
    && (pattern == "" || SqlLike.Like("%" + pattern + "%", x.file.filename))
    && (path == "" || SqlLike.Like("%" + path + "%", x.file.remotePath))
    && (fileType == "" || x.file.fileType == fileType)
  }

  function Where(rows: seq<SearchRow>, pattern: string, path: string, fileType: string): (r: seq<SearchRow>)
    ensures forall x :: x in r <==> x in rows && Matches(x, pattern, path, fileType)
    ensures forall x :: Matches(x, pattern, path, fileType) ==> multiset(r)[x] == multiset(rows)[x]
  {
    if |rows| == 0 then []
    else
      assert rows == [rows[0]] + rows[1..];
      (if Matches(rows[0], pattern, path, fileType) then [rows[0]] else []) + Where(rows[1..], pattern, path, fileType)
  }

  /**
   `search_files`: every joined row that passes the filters, each as often as
   the join produces it, latest `last_seen` first and then by file name.
   Rows that tie on both keys come back in an order SQL leaves open; the model
   keeps them in join order.
   */
  function SearchFiles(db: Db, pattern: string, path: string, fileType: string): (r: seq<SearchRow>)
    ensures Sorting.Sorted(r, ListedBefore)
    ensures multiset(r) == multiset(Where(JoinAll(db, db.files), pattern, path, fileType))
    ensures forall x :: x in r <==> x in JoinAll(db, db.files) && Matches(x, pattern, path, fileType)
  {
    ListedBeforeIsPreorder();
    var r := Sorting.Sort(Where(JoinAll(db, db.files), pattern, path, fileType), ListedBefore);
    assert forall x :: x in r <==> x in multiset(r);
    r
  }

  /** With no filter every joined row is returned. */
  lemma SearchWithoutFilters(db: Db)
    ensures multiset(SearchFiles(db, "", "", "")) == multiset(JoinAll(db, db.files))
  {
    var rows := JoinAll(db, db.files);
    var w := Where(rows, "", "", "");
    forall x
      ensures multiset(w)[x] == multiset(rows)[x]
    {
    }
    assert multiset(w) == multiset(rows);
  }

  /**
   Searching for a name without wildcards finds a catalogued file exactly when
   the name occurs in its file name, ignoring ASCII case.
   */
  lemma SearchByName(db: Db, q: string, f: FileRow)
    requires SqlLike.Literal(q) && q != "" && f in db.files
    ensures (exists x :: x in SearchFiles(db, q, "", "") && x.file == f)
        <==> exists i :: SqlLike.FoldedAt(q, f.filename, i)
  {
    SqlLike.ContainsPattern(q, f.filename);
    var i :| 0 <= i < |db.files| && db.files[i] == f;
    JoinAllHasFile(db, db.files, i);
    var x := FileRows(db, f)[0];
    assert x.file == f;
    if exists k :: SqlLike.FoldedAt(q, f.filename, k) {
      assert Matches(x, q, "", "");
      assert x in SearchFiles(db, q, "", "");
    }
  }
}
