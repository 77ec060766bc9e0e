/**
 `CacheManager` of `download-manager.py`: the directory-listing cache, keyed
 by the remote path exactly as given (the md5 file name is an injective
 encoding of it, and no path normalisation happens). Each record holds the
 time it was written, the listing and the folder sizes computed for it. The
 clock is a parameter: `now` stands for `time.time()` at the call.
 */
module DirCache {
  import opened Text
  import opened RemoteListing

  /** The pickled dict: `timestamp`, `files`, `folder_sizes`. */
  datatype Record = Record(timestamp: int, files: seq<Entry>, folderSizes: map<string, int>)

  datatype Cache = Cache(records: map<string, Record>, maxAge: int)

  /** The age limit the download manager constructs its cache with (five minutes). */
  const DefaultMaxAge: int := 300

  /** What a hit returns: the listing, its age in whole seconds, and the folder sizes. */
  datatype Hit = Hit(files: seq<Entry>, age: int, folderSizes: map<string, int>)

  function Empty(maxAge: int): (c: Cache)
    ensures c.records == map[] && c.maxAge == maxAge
  {
    Cache(map[], maxAge)
  }

  /** A record of age exactly `maxAge` is still served; one second older is not. */
  predicate Fresh(c: Cache, path: string, now: int) {
    path in c.records && now - c.records[path].timestamp <= c.maxAge
  }

  /** `get(path)`: nothing when there is no record or it is older than `max_age`. */
  function Get(c: Cache, path: string, now: int): (r: Option<Hit>)
    ensures r.Some? <==> Fresh(c, path, now)
    ensures r.Some? ==> (&& r.value.files == c.records[path].files
                         && r.value.folderSizes == c.records[path].folderSizes
                         && r.value.age + c.records[path].timestamp == now)
  {
    if path !in c.records then None
    else
      var rec := c.records[path];
      var age := now - rec.timestamp;
      if age > c.maxAge then None else Some(Hit(rec.files, age, rec.folderSizes))
  }

  /** `set(path, files, folder_sizes)`: the whole record is replaced; `None` sizes become `{}`. */
  function Set(c: Cache, path: string, files: seq<Entry>, folderSizes: Option<map<string, int>>, now: int): (c': Cache)
    ensures c'.maxAge == c.maxAge
    ensures c'.records.Keys == c.records.Keys + {path}
    ensures forall p :: p in c.records && p != path ==> c'.records[p] == c.records[p]
  {
    var sizes := match folderSizes case None => map[] case Some(m) => m;
    c.(records := c.records[path := Record(now, files, sizes)])
  }

  /** `clear()`: every record is removed. */
  function Clear(c: Cache): (c': Cache)
    ensures c'.maxAge == c.maxAge
    ensures forall p, now :: Get(c', p, now) == None
  {
    c.(records := map[])
  }

  /** The count half of `get_stats()`: the number of cached directories. */
  function StatsCount(c: Cache): (n: nat)
    ensures n == 0 <==> c.records == map[]
  {
    |c.records.Keys|
  }

  // ---------------------------------------------------------------------------
  // Properties
  // ---------------------------------------------------------------------------

  /** A `get` at the instant of a `set` returns exactly what was stored, aged 0. */
  lemma SetThenGet(c: Cache, path: string, files: seq<Entry>, sizes: Option<map<string, int>>, now: int)
    requires c.maxAge >= 0
    ensures Get(Set(c, path, files, sizes, now), path, now)
         == Some(Hit(files, 0, if sizes.Some? then sizes.value else map[]))
  {
  }

  /** A `set` for one path leaves every other path's answer unchanged. */
  lemma SetIsolated(c: Cache, path: string, other: string, files: seq<Entry>,
                    sizes: Option<map<string, int>>, t: int, now: int)
    requires other != path
    ensures Get(Set(c, path, files, sizes, t), other, now) == Get(c, other, now)
  {
  }

  /** The freshness boundary: served through `max_age` seconds, missed from `max_age + 1`. */
  lemma FreshnessBoundary(c: Cache, path: string, files: seq<Entry>,
                          sizes: Option<map<string, int>>, t: int, later: int)
    requires later >= t
    ensures var c' := Set(c, path, files, sizes, t);
            Get(c', path, later).Some? <==> later - t <= c.maxAge
  {
  }

  /** Once a record is stale it stays stale until it is written again. */
  lemma StaleStaysStale(c: Cache, path: string, now: int, later: int)
    requires now <= later
    requires Get(c, path, now).None?
    requires path in c.records
    ensures Get(c, path, later).None?
  {
  }

  /** After `clear()` the count is 0 and every `get` misses. */
  lemma ClearEmpties(c: Cache, path: string, now: int)
    ensures StatsCount(Clear(c)) == 0
    ensures Get(Clear(c), path, now).None?
  {
  }

  // ---------------------------------------------------------------------------
  // How browse_files uses the cache
  // ---------------------------------------------------------------------------

  predicate HasDirs(files: seq<Entry>) {
    exists k :: 0 <= k < |files| && files[k].isDir
  }

  /**
   The folder sizes after the listing is drawn: with sizes shown, every
   directory missing from `known` gets `dirSize(name)`; known sizes are kept.
   */
  function FillFolderSizes(files: seq<Entry>, known: map<string, int>, dirSize: string -> int): (m: map<string, int>)
    ensures known.Keys <= m.Keys
    ensures forall n :: n in known ==> m[n] == known[n]
    ensures forall k :: 0 <= k < |files| && files[k].isDir ==> files[k].name in m
  {
    if |files| == 0 then known
    else
      var f := files[0];
      var known' := if f.isDir && f.name !in known then known[f.name := dirSize(f.name)] else known;
      FillFolderSizes(files[1..], known', dirSize)
  }

  /** The listing `browse_files` shows, where it came from, and the cache afterwards. */
  datatype Shown = Shown(files: seq<Entry>, fromCache: bool, folderSizes: map<string, int>, cache: Cache)

  /**
   One pass of the top of `browse_files`. A fresh record is used unless a
   refresh was forced; otherwise `fetched` (the SFTP listing) is used. An
   empty listing ends browsing (`None`). The cache is written back when the
   listing was fetched, or when folder sizes had to be computed for a cached
   listing that had none, which also restarts its age.
   */
  function BrowseListing(c: Cache, path: string, now: int, forceRefresh: bool, fetched: seq<Entry>,
                         showFolderSizes: bool, dirSize: string -> int): (r: Option<Shown>)
    ensures r.Some? ==> |r.value.files| > 0
    ensures r.Some? && !r.value.fromCache ==> r.value.files == fetched
    ensures forceRefresh && r.Some? ==> !r.value.fromCache
    ensures r.Some? && !r.value.fromCache && c.maxAge >= 0 ==> Get(r.value.cache, path, now).Some?
  {
    var cached := if forceRefresh then None else Get(c, path, now);
    var files := if cached.Some? then cached.value.files else fetched;
    var known := if cached.Some? then cached.value.folderSizes else map[];
    if |files| == 0 then None
    else
      var need := showFolderSizes && HasDirs(files) && known == map[];
      var sizes := if showFolderSizes then FillFolderSizes(files, known, dirSize) else known;
      var c' := if cached.None? || need then Set(c, path, files, Some(sizes), now) else c;
      Some(Shown(files, cached.Some?, sizes, c'))
  }

  /** A fresh record is served as is: nothing is fetched and, with sizes hidden, nothing is written. */
  lemma FreshListingServedFromCache(c: Cache, path: string, now: int, fetched: seq<Entry>, dirSize: string -> int)
    requires Fresh(c, path, now)
    requires |c.records[path].files| > 0
    ensures var r := BrowseListing(c, path, now, false, fetched, false, dirSize);
            r == Some(Shown(c.records[path].files, true, c.records[path].folderSizes, c))
  {
  }

  /** A stale or missing record is never served: the fetched listing is shown and cached. */
  lemma StaleListingRefetched(c: Cache, path: string, now: int, fetched: seq<Entry>,
                              show: bool, dirSize: string -> int)
    requires !Fresh(c, path, now)
    requires |fetched| > 0
    requires c.maxAge >= 0
    ensures var r := BrowseListing(c, path, now, false, fetched, show, dirSize);
            && r.Some? && !r.value.fromCache && r.value.files == fetched
            && Get(r.value.cache, path, now).value.files == fetched
  {
  }
}
