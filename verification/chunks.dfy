/**
 `download_file` of the SFTP connection manager in `download-manager.py`:
 files under 10 MiB are copied in one transfer; larger ones are cut into
 `chunks` byte ranges, each range is read by its own connection in blocks of
 at most 64 KiB, and the `.partN` files are concatenated in index order.

 The remote file is its byte sequence `data` (its `st_size` is `|data|`);
 a read of `n` bytes at position `pos` returns what the file holds there.
 Threads, progress callbacks and the temporary files are not modelled: a
 chunk is either read in full or its connection fails (`broken`).
 */
module Chunks {
  import opened Text

  newtype byte = x: int | 0 <= x < 256

  /** Files smaller than this are fetched with a single `get`. */
  const ChunkThreshold: int := 10 * 1024 * 1024

  /** The largest single `read` a chunk worker issues. */
  const ReadBlock: int := 65536

  /** `download_file`'s default chunk count, also the `DOWNLOAD_CHUNKS` default. */
  const DefaultChunks: int := 8

  function Min(a: int, b: int): int { if a <= b then a else b }
  function Max(a: int, b: int): int { if a >= b then a else b }

  /** The half-open byte range `[start, end)` one worker is given. */
  datatype Span = Span(start: nat, end: nat)

  /** What reading `[start, end)` can deliver: nothing past the end of the file, nothing for `end < start`. */
  function Slice(data: seq<byte>, s: Span): (r: seq<byte>)
    ensures |r| <= |data|
    ensures s.start <= s.end <= |data| ==> r == data[s.start..s.end]
  {
    var lo := Min(s.start, |data|);
    var hi := Max(lo, Min(s.end, |data|));
    data[lo..hi]
  }

  /** `remote_file.read(n)` after seeking to `pos`. */
  function ReadAt(data: seq<byte>, pos: nat, n: nat): (r: seq<byte>)
    ensures |r| <= n
    ensures pos < |data| && n > 0 ==> |r| > 0
  {
    var lo := Min(pos, |data|);
    data[lo..Min(pos + n, |data|)]
  }

  /**
   The worker's read loop: blocks of at most 64 KiB until the range is
   exhausted or a read comes back empty.
   */
  method ReadChunk(data: seq<byte>, start: nat, end: nat) returns (got: seq<byte>)
    ensures got == Slice(data, Span(start, end))
  {
    var toRead := end - start;
    var bytesRead: nat := 0;
    got := [];
    var lo := Min(start, |data|);
    while bytesRead < toRead
      invariant bytesRead <= toRead || bytesRead == 0
      invariant start + bytesRead == lo + |got| || start >= |data|
      invariant start < |data| ==> lo + |got| <= |data| && got == data[lo..lo + |got|]
      invariant start >= |data| ==> got == []
      decreases toRead - bytesRead
    {
      var n := Min(ReadBlock, toRead - bytesRead);
      var piece := ReadAt(data, start + bytesRead, n);
      if |piece| == 0 {
        break;
      }
      got := got + piece;
      bytesRead := bytesRead + |piece|;
    }
  }

  /**
   The ranges of the worker threads: `range(chunks)` with
   `start = i * (size // chunks)` and the last range running to the end.
   For `chunks < 1` there are none.
   */
  function ChunkSpans(size: nat, chunks: int): (r: seq<Span>)
    ensures |r| == Max(chunks, 0)
  {
    if chunks < 1 then []
    else
      var cs := size / chunks;
      seq(chunks, i requires 0 <= i < chunks => Span(i * cs, if i == chunks - 1 then size else (i + 1) * cs))
  }

  /** `spans` lie end to end, from `a` to `b`, each non-decreasing. */
  predicate Tiles(spans: seq<Span>, a: int, b: int)
    decreases |spans|
  {
    if |spans| == 0 then a == b
    else spans[0].start == a && spans[0].start <= spans[0].end && Tiles(spans[1..], spans[0].end, b)
  }

  /** The reassembled file: each range's bytes, in index order. */
  function Assemble(data: seq<byte>, spans: seq<Span>): (r: seq<byte>)
    decreases |spans|
  {
    if |spans| == 0 then [] else Slice(data, spans[0]) + Assemble(data, spans[1..])
  }

  lemma MulMono(a: nat, b: nat, c: nat)
    requires a <= b
    ensures a * c <= b * c
  {
  }

  lemma {:induction false} SpansTileFrom(size: nat, chunks: int, i: nat)
    requires 1 <= chunks && i < chunks
    ensures Tiles(ChunkSpans(size, chunks)[i..], i * (size / chunks), size)
    decreases chunks - i
  {
    var spans := ChunkSpans(size, chunks);
    var cs := size / chunks;
    assert cs * chunks <= size;
    if i == chunks - 1 {
      MulMono(i, chunks, cs);
      assert spans[i..][1..] == [];
    } else {
      MulMono(i + 1, chunks, cs);
      SpansTileFrom(size, chunks, i + 1);
      assert spans[i..][1..] == spans[i + 1..];
    }
  }

  /** For any positive chunk count the ranges cover `[0, size)` with no gap and no overlap. */
  lemma SpansTile(size: nat, chunks: int)
    requires chunks >= 1
    ensures Tiles(ChunkSpans(size, chunks), 0, size)
  {
    SpansTileFrom(size, chunks, 0);
    assert ChunkSpans(size, chunks)[0..] == ChunkSpans(size, chunks);
  }

  lemma {:induction false} AssembleTiles(data: seq<byte>, spans: seq<Span>, a: nat, b: nat)
    requires Tiles(spans, a, b) && b <= |data|
    ensures a <= b
    ensures Assemble(data, spans) == data[a..b]
    decreases |spans|
  {
    if |spans| > 0 {
      AssembleTiles(data, spans[1..], spans[0].end, b);
      assert data[a..b] == data[a..spans[0].end] + data[spans[0].end..b];
    }
  }

  /** Reassembling the chunk ranges reproduces the remote file exactly. */
  lemma ChunksReassemble(data: seq<byte>, chunks: int)
    requires chunks >= 1
    ensures Assemble(data, ChunkSpans(|data|, chunks)) == data
  {
    SpansTile(|data|, chunks);
    AssembleTiles(data, ChunkSpans(|data|, chunks), 0, |data|);
  }

  // ---------------------------------------------------------------------------
  // The whole call
  // ---------------------------------------------------------------------------

  /**
   The return value of `download_file` and what it leaves at `local_path`
   (`None`: the call does not write it, whatever was there stays).
   */
  datatype Outcome = Outcome(ok: bool, written: Option<seq<byte>>)

  predicate SomeChunkBroken(chunks: int, broken: set<int>) {
    exists i :: 0 <= i < chunks && i in broken
  }

  /**
   What a single `get` that fails leaves behind: the local file is opened
   for writing before the copy starts, so it holds the `got` bytes
   transferred before the failure (all of them when only the final size
   check fails).
   */
  function FailedGet(data: seq<byte>, got: nat): (r: seq<byte>)
    ensures r <= data
  {
    data[..Min(got, |data|)]
  }

  /**
   `download_file` as written. Without a session it fails at once; when
   `stat` of the remote path raises (`statFails`: the file was removed or
   became unreadable) the exception is caught and the call fails before
   `local_path` is opened; a small file is one `get`, which may fail (`getFails`) after writing a prefix of
   the file; `chunks == 0` fails on the division (`ZeroDivisionError` is
   caught); otherwise the listed chunk workers run, any failure fails the
   download before `local_path` is opened, and the parts are concatenated.
   A negative `chunks` starts no worker at all and writes an empty file.
   */
  function DownloadFile(connected: bool, statFails: bool, data: seq<byte>, chunks: int, getFails: bool, got: nat, broken: set<int>): (o: Outcome)
    ensures !connected || statFails ==> o == Outcome(false, None)
    ensures !o.ok && o.written.Some? ==> |data| < ChunkThreshold && o.written.value <= data
    ensures !o.ok && |data| >= ChunkThreshold ==> o.written.None?
    ensures o.ok && |data| < ChunkThreshold ==> o.written == Some(data)
  {
    if !connected then Outcome(false, None)
    else if statFails then Outcome(false, None)
    else if |data| < ChunkThreshold then
      (if getFails then Outcome(false, Some(FailedGet(data, got))) else Outcome(true, Some(data)))
    else if chunks == 0 then Outcome(false, None)
    else if SomeChunkBroken(chunks, broken) then Outcome(false, None)
    else Outcome(true, Some(Assemble(data, ChunkSpans(|data|, chunks))))
  }

  /** With a positive chunk count, a reported success always leaves an exact copy. */
  lemma DownloadFileFaithful(connected: bool, statFails: bool, data: seq<byte>, chunks: int, getFails: bool, got: nat, broken: set<int>)
    requires chunks >= 1
    ensures var o := DownloadFile(connected, statFails, data, chunks, getFails, got, broken);
            o.ok ==> o.written == Some(data)
  {
    if |data| >= ChunkThreshold {
      ChunksReassemble(data, chunks);
    }
  }

  /** A large download succeeds exactly when no chunk worker fails. */
  lemma DownloadFileFailsOnBrokenChunk(data: seq<byte>, chunks: int, broken: set<int>)
    requires chunks >= 1 && |data| >= ChunkThreshold
    ensures DownloadFile(true, false, data, chunks, false, 0, broken).ok <==> !SomeChunkBroken(chunks, broken)
  {
  }

  /**
   The discrepancy: with `DOWNLOAD_CHUNKS` negative, a file of 10 MiB or more
   is reported downloaded while an empty file is written.
   */
  lemma NegativeChunksWriteEmptyFile(data: seq<byte>, chunks: int, broken: set<int>)
    requires chunks < 0 && |data| >= ChunkThreshold
    ensures DownloadFile(true, false, data, chunks, false, 0, broken) == Outcome(true, Some([]))
    ensures DownloadFile(true, false, data, chunks, false, 0, broken).written != Some(data)
  {
    assert !SomeChunkBroken(chunks, broken);
  }

  /**
   `download_file` with the chunk count checked: a count below 1 fails the
   download, as a count of 0 already does.
   */
  function DownloadFileChecked(connected: bool, statFails: bool, data: seq<byte>, chunks: int, getFails: bool, got: nat, broken: set<int>): (o: Outcome)
    ensures !o.ok && o.written.Some? ==> |data| < ChunkThreshold && o.written.value <= data
    ensures o.ok ==> o.written == Some(data)
    ensures o.ok <==> connected && !statFails && (if |data| < ChunkThreshold then !getFails
                                    else chunks >= 1 && !SomeChunkBroken(chunks, broken))
  {
    if connected && |data| >= ChunkThreshold && chunks < 1 then Outcome(false, None)
    else if chunks >= 1 then
      DownloadFileFaithful(connected, statFails, data, chunks, getFails, got, broken);
      DownloadFile(connected, statFails, data, chunks, getFails, got, broken)
    else DownloadFile(connected, statFails, data, chunks, getFails, got, broken)
  }

  /** Testing the chunk count changes nothing for the counts the code was written for. */
  lemma CheckedAgreesOnPositiveChunks(connected: bool, statFails: bool, data: seq<byte>, chunks: int, getFails: bool, got: nat, broken: set<int>)
    requires chunks >= 1 || |data| < ChunkThreshold
    ensures DownloadFileChecked(connected, statFails, data, chunks, getFails, got, broken)
         == DownloadFile(connected, statFails, data, chunks, getFails, got, broken)
  {
  }
}
