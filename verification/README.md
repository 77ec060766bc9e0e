# RemoteDownloadManager in Dafny

A model of the logic at the heart of RemoteDownloadManager. The system has three programs:

- a terminal download manager (`download-manager.py`) that browses a remote
  directory over SFTP and downloads a selection of files;
- a scanner (`remote_scanner.py`) that catalogues `ls -l` listings of the
  server in a SQLite database and manages a download queue;
- a small web application (`web_app.py`) over the same catalogue and queue.

Networking, the database engine, the terminal and the web framework are left
out. The rest is modelled as immutable datatypes and pure functions, plus two
loops written as methods. Each operation is related by lemmas to a partner:

- an inverse (a parser and the text it reads);
- an invariant it keeps (a well-formed catalogue, a sorted listing);
- an independent definition (a recursive size against a sum of files, `LIKE`
  against "occurs somewhere").

Modules:

- `Text`: the Python string operations the programs use: `strip`, `split`,
  `join`, `lower`, `isdigit`, `str()` and `int()` on ASCII text.
- `Sorting`: a stable insertion sort, standing for Python's stable `list.sort`.
- `RemoteListing`: the listing entry, the newest-first sort of
  `list_directory`, and `get_directory_size` over a finite tree.
- `Selection`: `parse_selection`.
- `Paths`: `os.path.join`, `Path.name` and `Path.parent`, read as lists of
  components.
- `Browse`: the choice dispatch of `browse_files`, the destination menu, and
  the counting loop of `download_files`.
- `DirCache`: `CacheManager`, keyed by path, with the clock passed in.
- `Chunks`: the chunk plan of `download_file`, the worker read loop, and
  reassembly.
- `Format`: `format_time`, the integer branches of `format_size`, and
  `get_file_emoji`.
- `BashConfig`: the download manager's `Config`.
- `RegexConfig`: the regular-expression `load_config` of the scanner and the
  web application, and the web `get_download_paths`.
- `LsListing`: `parse_directory_listing`.
- `SqlLike`: SQLite's `LIKE` as the search uses it.
- `Catalog`: the `Database` class over its three tables, and the web
  application's queue removal and statistics.
- `Requests`: `scan_and_store`, the scanner's `--queue` command, and the web
  `add_to_queue`.

The contracts state what the code does, including its looser choices:

- a selection keeps duplicates, and a malformed part is dropped silently;
- queueing a file twice leaves two queued rows;
- any status change is accepted;
- the cache is keyed by the path text as given.

## Model

| member | source | states |
|---|---|---|
| Text.ParseInt | download-manager.py:75-79 | `int()` on text: a result exactly when the stripped text is digits, optionally after one `+` or `-`; digits read as their decimal value, and a sign keeps or negates it |
| Text.ParseIntToString | download-manager.py:75-79 | `int(str(i)) == i` for every integer |
| Text.Split | download-manager.py:693 | `split(sep)` gives at least one part and no part holds the separator |
| Text.JoinSplit | download-manager.py:693 | joining the parts of a split with the separator gives back the text |
| Text.SplitJoin | remote_scanner.py:351 | splitting separator-free parts joined by the separator gives back the parts |
| Text.SplitAround | download-manager.py:693 | splitting distributes over one occurrence of the separator |
| Text.TrimLeft | download-manager.py:696 | the left strip is a suffix of the text, starts with a non-space, and everything dropped is whitespace |
| Text.StripDropsSpaces | download-manager.py:696 | everything `strip()` removes, at either end, is whitespace |
| Text.StripAppendSpace | download-manager.py:58-59 | a trailing line break does not change a stripped line |
| Text.StripChar | download-manager.py:64 | `strip(c)` is the text without a run of `c` at its start and a run at its end, and no `c` is left at either end |
| Text.Lower | download-manager.py:514 | `lower()` keeps the length and lowers each ASCII capital, nothing else |
| Text.IndexOf | download-manager.py:62 | the first occurrence: absent exactly when the character is absent, otherwise no earlier copy |
| Text.LastIndexOf | download-manager.py:514 | the last occurrence: absent exactly when the character is absent, otherwise no later copy |
| Text.NatToString | download-manager.py:616 | `str(n)` is a digit string whose decimal value is `n` |
| Text.ParseIntDigits | download-manager.py:710 | `int()` of a digit string is its decimal value |
| Sorting.Sort | download-manager.py:208-209 | the result is ordered by the key and is a permutation of the input |
| Sorting.SortStable | download-manager.py:208-209 | elements with equal keys come out in input order, as Python's sort guarantees |
| Sorting.SortSortedIdentity | download-manager.py:208-209 | an already ordered list comes out unchanged |
| RemoteListing.NewerOrSameIsPreorder | download-manager.py:209 | the key `-mtime` orders every pair of entries, transitively |
| RemoteListing.SortNewestFirst | download-manager.py:208-209 | the listing is a permutation of the server's entries, modification times non-increasing, directories and files mixed |
| RemoteListing.SortNewestFirstStable | download-manager.py:208-209 | entries with the same modification time keep the server's order |
| RemoteListing.GetDirectorySize | download-manager.py:348-373 | no connection, or a top directory that cannot be listed, gives 0 |
| RemoteListing.NodeSizeIsSumOfFiles | download-manager.py:357-369 | the recursive total equals the sum of the sizes of the files the walk reaches |
| RemoteListing.ListSizeIsSumOfFiles | download-manager.py:360-367 | a directory's total is the sum over every reachable file in its entries |
| RemoteListing.ListSizeAppend | download-manager.py:360-367 | sibling totals add up; an unreadable directory contributes 0 and stops nothing else |
| RemoteListing.NodeSizeNonNegative | download-manager.py:357-370 | with non-negative file sizes the total is non-negative |
| Selection.Pick | download-manager.py:703-712 | only entries of the listing are selected, never more than indices requested |
| Selection.ParseSelection | download-manager.py:690-714 | every selected entry is an entry of the listing |
| Selection.ParseSelectionConcat | download-manager.py:693-714 | the selection of `a,b` is the selection of `a` followed by that of `b`: no reordering, no deduplication |
| Selection.PickRange | download-manager.py:703-705 | a range of indices picks exactly the slice of the listing it overlaps |
| Selection.SingleIndex | download-manager.py:709-712 | a bare index `i` selects `files[i-1]` when `1 <= i <= len(files)`, and nothing (no error) otherwise |
| Selection.RangeSelection | download-manager.py:699-705 | `A-B` selects the entries from `max(A,1)` to `min(B,len(files))`; `A > B` selects nothing |
| Selection.DuplicatesKept | download-manager.py:693-712 | `i,i` selects entry `i` twice |
| Selection.MalformedSkipped | download-manager.py:699-713 | a malformed part selects nothing and leaves the parts after it unaffected |
| Selection.OnlyMalformedSelectsNothing | download-manager.py:695-714 | an input made only of malformed parts selects nothing |
| Selection.TwoDashesMalformed | download-manager.py:700-707 | `a-b-c` is malformed, because unpacking three pieces raises |
| Selection.LeadingDashMalformed | download-manager.py:700-707 | `-3` is malformed, because `int('')` raises |
| Selection.NonDigitMalformed | download-manager.py:708-713 | a dash-free part holding a non-digit is malformed |
| Paths.PathJoin | download-manager.py:680 | `os.path.join` returns an absolute second part as it is |
| Paths.Name | download-manager.py:827 | `Path.name` is the last component, or empty for the root and the empty path |
| Paths.ParentComponents | download-manager.py:648 | `Path.parent` drops exactly the last component; the root stays the root |
| Paths.ComponentsOfPathJoin | download-manager.py:680 | joining a plain name onto a directory appends exactly that component |
| Paths.EnterThenUp | download-manager.py:646-680 | entering a directory and then taking the parent returns to the same components |
| Browse.FilesOnly | download-manager.py:668 | the result holds exactly the non-directory entries of the input |
| Browse.FilesOnlyAppend | download-manager.py:668 | the filter distributes over concatenation, so the listing's order and every file entry are kept |
| Browse.FilesOnlySingle | download-manager.py:668 | one entry: a file is kept, a directory dropped |
| Browse.Dispatch | download-manager.py:644-688 | `q` in any case quits, and nothing else does; `..` moves to the parent unless at the base; `0` returns to the base; the base never changes; only a redisplay moves; a download holds only files of the listing; "invalid selection" only when nothing was selected |
| Browse.SelectionStep | download-manager.py:676-688 | nothing selected is an invalid selection; a download holds only selected files and never a directory |
| Browse.DispatchSelection | download-manager.py:674-676 | an answer that is not a keyword goes through `parse_selection` |
| Browse.NumeralIsNotKeyword | download-manager.py:644-667 | no positive numeral is taken for a keyword |
| Browse.EnterDirectoryByNumber | download-manager.py:676-680 | typing a directory's number enters it, and `..` then leads back to the same place |
| Browse.DownloadFileByNumber | download-manager.py:676-685 | typing a file's number downloads exactly that file and moves nowhere |
| Browse.SelectAll | download-manager.py:667-673 | `all` downloads every file of the listing and no directory |
| Browse.ChooseDestination | download-manager.py:800-816 | `0` cancels, and nothing else does; a chosen path is a configured one or the custom one; text `int()` rejects is an invalid choice |
| Browse.DestinationMenu | download-manager.py:793-808 | menu line `k` picks the k-th configured path, and line `n+1` the custom path |
| Browse.FinalDestination | download-manager.py:826-831 | files go to a sub-directory named after the remote folder, when it has a name |
| Browse.DownloadBatch | download-manager.py:838-888 | every file is attempted, in order, from the remote folder to the destination; successes count the true outcomes; successes plus failures equal the number of files |
| DirCache.Get | download-manager.py:387-407 | a hit exactly when a record exists and is at most `max_age` old; the hit returns the stored files and folder sizes |
| DirCache.Set | download-manager.py:412-424 | the path gets a record and every other path's record is unchanged |
| DirCache.Clear | download-manager.py:426-429 | afterwards every `get` misses, whatever the path and time |
| DirCache.StatsCount | download-manager.py:431-434 | the count is 0 exactly when nothing is cached |
| DirCache.SetThenGet | download-manager.py:387-424 | a `get` at the instant of a `set` returns the stored files, age 0, and the sizes (`None` read as `{}`) |
| DirCache.SetIsolated | download-manager.py:412-424 | a `set` for one path leaves the answers for every other path unchanged |
| DirCache.FreshnessBoundary | download-manager.py:399-403 | a record is served through `max_age` seconds and missed from `max_age + 1` on |
| DirCache.StaleStaysStale | download-manager.py:399-403 | a stale record stays stale until written again |
| DirCache.ClearEmpties | download-manager.py:426-436 | after `clear` the count is 0 and every `get` misses |
| DirCache.FillFolderSizes | download-manager.py:598-606 | known folder sizes are kept, and every directory of the listing gets a size |
| DirCache.BrowseListing | download-manager.py:552-620 | a listing shown is non-empty; a forced refresh never uses the cache; a listing not from the cache is the fetched one and is cached afterwards |
| DirCache.FreshListingServedFromCache | download-manager.py:553-620 | a fresh record is shown as it is, and nothing is fetched or written |
| DirCache.StaleListingRefetched | download-manager.py:553-620 | a stale or missing record is never shown: the fetched listing is shown and cached |
| Chunks.ReadAt | download-manager.py:290 | a read returns at most the bytes asked for, and something when there is data left |
| Chunks.ReadChunk | download-manager.py:283-294 | the worker's read loop delivers exactly the bytes of its range, clipped to the file |
| Chunks.ChunkSpans | download-manager.py:309-311 | one range per chunk, and none for a chunk count below 1 |
| Chunks.SpansTile | download-manager.py:236-311 | for any positive chunk count the ranges cover `[0, size)` end to end, with no gap or overlap |
| Chunks.ChunksReassemble | download-manager.py:327-333 | concatenating the ranges' bytes in index order reproduces the remote file |
| Chunks.DownloadFile | download-manager.py:221-339 | without a session, or when `stat` of the remote path raises, the call fails and `local_path` is untouched; a failed large download leaves `local_path` alone, a failed single `get` leaves a prefix of the file there, and a successful small download is an exact copy |
| Chunks.DownloadFileFaithful | download-manager.py:221-339 | with a positive chunk count, a reported success always leaves an exact copy |
| Chunks.DownloadFileFailsOnBrokenChunk | download-manager.py:321-325 | a large download succeeds exactly when no chunk worker fails |
| Chunks.NegativeChunksWriteEmptyFile | download-manager.py:236-335 | with a negative chunk count a large file is reported downloaded while an empty file is written |
| Chunks.DownloadFileChecked | download-manager.py:221-339 | a success always leaves an exact copy, a failure nothing or a prefix of the file, and it succeeds exactly when connected and the single get or every chunk of a positive count succeeds |
| Chunks.CheckedAgreesOnPositiveChunks | download-manager.py:221-339 | the checked download agrees with the original for positive chunk counts and for small files |
| Format.FormatTimeReadsBack | download-manager.py:500-510 | the text states the duration: exact below an hour, truncated to the whole minute from an hour on |
| Format.FormatTimeMinutes | download-manager.py:504-507 | between a minute and an hour the text reads back as minutes and the remaining seconds |
| Format.FormatTimeHours | download-manager.py:508-510 | from an hour on the text reads back as hours and the remaining minutes |
| Format.FormatSize | remote_scanner.py:425-434 | the scanner's label is never `N/A`, and a scaled one has one decimal place |
| Format.WebFormatSize | web_app.py:61-74 | the web label is `N/A` exactly for a missing or zero size |
| Format.ExactSizeReadsBack | remote_scanner.py:427-428 | a size below 1 KiB is shown exactly, as `{size}B` |
| Format.ScaledUnitFits | remote_scanner.py:429-434 | a scaled label's unit is the largest the size reaches, up to GB |
| Format.FormatSizeMonotone | remote_scanner.py:427-434 | a larger size never gets a smaller unit |
| Format.WebAgreesWithScanner | web_app.py:63-74 | below 1 GiB the two `format_size` functions agree except at 0, which the web shows as `N/A`; from 1 GiB on both say GB, the web with two decimal places and the scanner with one |
| Format.Suffix | download-manager.py:514 | `Path.suffix` is empty, or a dot followed by at least one dot-free character |
| Format.LStrip | web_app.py:79 | `lstrip('.')` is a suffix of the text that does not start with a dot |
| Format.ManagerLookup | download-manager.py:515-541 | a key that does not start with a dot gets the generic icon |
| Format.KeysOfPlainName | web_app.py:79 | `stem.EXT` is looked up as `ext` by the web and as `.ext` by the download manager |
| Format.NoSuffixIsGeneric | web_app.py:79-91 | a name without an extension gets the generic icon in both programs |
| Format.WebTableWithinManager | web_app.py:81-89 | every extension the web lists under an icon, the download manager lists under the same icon |
| BashConfig.ConcatReadLines | download-manager.py:101-119 | writing back the lines `readlines` returned reproduces the file, and those lines are well formed |
| BashConfig.ReadLinesConcat | download-manager.py:101-119 | reading back well-formed written lines gives the same lines |
| BashConfig.SplitSetting | download-manager.py:59-62 | a line sets nothing exactly when it is blank, a comment or lacks `=`; otherwise it is `key=value`, the key free of `=` |
| BashConfig.Open | download-manager.py:44-52 | opening fails exactly when the file is missing |
| BashConfig.LastDefinitionWins | download-manager.py:56-70 | a key holds the value of its last definition in the file |
| BashConfig.FoldReplaceLast | download-manager.py:56-70 | replacing the last line that sets a key, whatever earlier lines set it, changes that key only |
| BashConfig.ParseRendered | download-manager.py:59-68 | a `KEY=value` line, quoted or not, is read back as that key and value |
| BashConfig.Get | download-manager.py:72-73 | a present key gives its stored text, a missing one the default |
| BashConfig.GetInt | download-manager.py:75-79 | a present key gives `int()` of its text when that succeeds; text `int()` rejects, or a missing key, gives the default |
| BashConfig.GetIntReadsInteger | download-manager.py:75-79 | a stored `str(n)` reads as `n`, and text `int()` rejects gives the default |
| BashConfig.GetBoolMissing | download-manager.py:81-83 | a missing key gives the default |
| BashConfig.SetBool | download-manager.py:95-98 | the key is set and every other key keeps its value |
| BashConfig.GetBoolAfterSetBool | download-manager.py:81-98 | `get_bool` after `set_bool` returns the value set, whatever the default |
| BashConfig.Slot | download-manager.py:88-92 | slot `i` is listed exactly when its path is set and non-empty, with that path and a non-empty name |
| BashConfig.GetDownloadPaths | download-manager.py:85-93 | at most five destinations |
| BashConfig.SlotsAreConfigured | download-manager.py:85-93 | every listed destination is a configured non-empty path with a non-empty name |
| BashConfig.NoPathsConfigured | download-manager.py:85-93 | without configured paths nothing is listed |
| BashConfig.AllPathsConfigured | download-manager.py:85-93 | with all five paths set, entry `n-1` is path `n` |
| BashConfig.FirstDefinition | download-manager.py:107-111 | the first line that defines the key, with no earlier one; none when no line does |
| BashConfig.LastDefinition | download-manager.py:56-70 | the last line that defines the key, the one the reader keeps, with no later one; none when no line does |
| BashConfig.SetBoolLines | download-manager.py:105-115 | the rewrite replaces the first defining line only, or appends exactly one line when no line defines the key |
| BashConfig.DefinesIffSetsKey | download-manager.py:108 | the `startswith(key + '=')` test matches exactly the lines the reader takes as setting the key |
| BashConfig.AppendGluesToLastLine | download-manager.py:113-119 | with an unterminated last line, the appended setting is glued to it and reads back as part of the other key's value |
| BashConfig.FixedAgreesOnTerminatedFiles | download-manager.py:107-119 | the corrected rewrite differs from the original only for a file without a final line break or one that sets the key on more than one line |
| BashConfig.SetBoolPersists | download-manager.py:95-119 | with the last defining line rewritten and the line break added, reading the rewritten file gives the settings `set_bool` holds in memory, for any file |
| BashConfig.RewriteShadowedBySecondDefinition | download-manager.py:107-111 | with the key set on two lines, the rewrite changes the first while the reader keeps the second, so the file reads back with the old value |
| BashConfig.OneLineFile | download-manager.py:54-70 | a file of one setting line holds exactly that setting |
| RegexConfig.KeyRun | web_app.py:35 | the greedy key run: only key characters, and it stops at the first other character |
| RegexConfig.QuotedValue | web_app.py:35 | the value drops one opening quote and runs to the next quote |
| RegexConfig.MatchLine | web_app.py:35 | a line matches exactly when an `=` follows a non-empty run of key characters at its start; the key is that run |
| RegexConfig.ReadLine | web_app.py:33-38 | a stored key is a non-empty run of key characters and its value holds no quote |
| RegexConfig.LoadShape | web_app.py:31-38 | every stored key consists of key characters and every value is quote-free |
| RegexConfig.WebLoadConfig | web_app.py:25-40 | a missing file gives no settings; keys hold only capitals and `_` |
| RegexConfig.FirstMissing | remote_scanner.py:315-319 | the first required key that is absent, with all before it present; none exactly when all are present |
| RegexConfig.ScannerLoadConfig | remote_scanner.py:296-321 | a missing file is its own error; the settings are returned exactly when every required key is present; otherwise the first missing required key, in the order checked, is named |
| RegexConfig.ReadRendered | web_app.py:33-38 | a `KEY=value` line, quoted or not, is read back when the key has only key characters |
| RegexConfig.OneLineLoad | web_app.py:31-38 | a file of one setting line holds exactly that setting |
| RegexConfig.WebSlot | web_app.py:48-56 | slot `i` is listed exactly when its path key is present and non-empty, with that path |
| RegexConfig.WebDownloadPaths | web_app.py:43-58 | at most five destinations, and a destination is listed exactly when one of the five slots yields it |
| RegexConfig.WebSlotAgainstManager | web_app.py:52-56 | the web slot equals the download manager's, except that a present but empty name is shown empty instead of `Path i` |
| RegexConfig.NoPathKeysNoSlots | web_app.py:48-56 | without path keys nothing is listed |
| RegexConfig.PathKeyHasDigit | web_app.py:35 | `DOWNLOAD_PATH_n` is not a `[A-Z_]+` key, but is a `[A-Z0-9_]+` one |
| RegexConfig.WebPathsAlwaysEmpty | web_app.py:35-52 | whatever the file says, the web lists no download path |
| RegexConfig.WebLoadConfigFixed | web_app.py:25-40 | with digits admitted, a missing file still gives no settings, and keys are runs of `[A-Z0-9_]` |
| RegexConfig.FixedAgreesOnLettersOnly | web_app.py:35 | admitting digits changes nothing for a line unless the digit-admitting reader finds a key with a digit |
| RegexConfig.FixedReaderListsPath | web_app.py:25-58 | with digits admitted, a configured `DOWNLOAD_PATH_i` is listed as `Path i` |
| LsListing.SplitFields | remote_scanner.py:358 | `split(None, 7)`: at most eight fields, each starting with a non-space, all but the last free of whitespace |
| LsListing.SplitSpaced | remote_scanner.py:358 | fields written one space apart split back into those fields, the last keeping its inner spaces |
| LsListing.SizeField | remote_scanner.py:364 | a digit field reads as its value, anything else as 0 |
| LsListing.FileType | remote_scanner.py:381-385 | `folder` for a directory, otherwise the lower-cased extension without its dot |
| LsListing.ParseEntry | remote_scanner.py:352-394 | a record exactly for lines of eight fields whose kind is `d` or `-` and whose name is not `.` or `..`, built from those fields |
| LsListing.ParseListing | remote_scanner.py:347-396 | at most one record per line, each naming the given directory |
| LsListing.CollectAppend | remote_scanner.py:351-396 | the records of two runs of lines are those of each, in order |
| LsListing.ListingConcat | remote_scanner.py:351-396 | lines are independent: two listings joined by a line break give both record lists, in order |
| LsListing.ListingOfLines | remote_scanner.py:351 | a listing is read line by line |
| LsListing.BlankLineSkipped | remote_scanner.py:352-354 | a blank line contributes nothing |
| LsListing.LsLineParses | remote_scanner.py:358-394 | an `ls -l` line of a directory or file yields the record of exactly the fields it shows, spaces in the name kept |
| LsListing.OtherKindsDropped | remote_scanner.py:377-379 | symbolic links, devices and the like are dropped |
| SqlLike.PercentMatchesAll | remote_scanner.py:260 | `%` matches every text |
| SqlLike.ContainsPattern | remote_scanner.py:258-264 | `x LIKE '%q%'` for a wildcard-free `q` holds exactly when `q` occurs in `x`, ASCII case ignored |
| SqlLike.UnderscoreMatchesAnyCharacter | remote_scanner.py:258-260 | a search term `_` matches every non-empty text |
| Catalog.Empty | remote_scanner.py:52-113 | a new database is empty and well formed |
| Catalog.FindFile | remote_scanner.py:121-126 | finds a row with the given directory and name, and nothing exactly when there is none |
| Catalog.AddOrUpdateFile | remote_scanner.py:115-143 | other tables untouched; an unknown file is appended with `first_seen = last_seen = now`; a known one keeps its id, `first_seen` and type and gets the new size, dates and `last_seen`; at most one row more; well-formedness kept |
| Catalog.AddOrUpdateFindsKey | remote_scanner.py:115-143 | afterwards the key is present, on the row whose id was returned |
| Catalog.RescanAddsNoRow | remote_scanner.py:128-135 | seeing a known file again adds no row |
| Catalog.GetFileById | remote_scanner.py:275-281 | returns a row with that id, and nothing exactly when there is none |
| Catalog.IdLookup | remote_scanner.py:275-281 | with distinct ids, looking up a row's id finds that row |
| Catalog.QueueFile | remote_scanner.py:145-152 | always appends one fresh `queued` row and changes nothing else |
| Catalog.CountStatusAppend | remote_scanner.py:145-152 | appending a row adds one to the count of its status only |
| Catalog.QueueTwiceTwoRows | remote_scanner.py:145-152 | queueing a file twice leaves two more queued rows |
| Catalog.GetQueuedFiles | remote_scanner.py:154-173 | never more rows than queued downloads |
| Catalog.GetQueuedFilesMembership | remote_scanner.py:168-170 | a row is listed exactly when it joins a queued download to its existing file |
| Catalog.GetQueuedFilesAscending | remote_scanner.py:171 | the listing is in ascending download id |
| Catalog.UpdateDownloadStatus | remote_scanner.py:175-192 | the row with that id gets the status and date whatever its status was; its local path changes only when a non-empty one is given; nothing else changes |
| Catalog.CompletedCanBeRequeued | remote_scanner.py:175-192 | no transition is refused: a completed download can be put back to `queued` |
| Catalog.LatestDownloadOf | remote_scanner.py:199-205 | the file's download row with the highest id, and none exactly when the file has none |
| Catalog.AddNote | remote_scanner.py:194-221 | the note goes on the file's latest download row, or a new `noted` row is added when there is none |
| Catalog.AddNoteQueuesNothing | remote_scanner.py:214-219 | a note never changes the number of queued rows |
| Catalog.AddSourceFile | remote_scanner.py:223-230 | appends one source row and changes nothing else |
| Catalog.KeepDownloads | remote_scanner.py:286 | the rows kept are exactly those the condition accepts, in order |
| Catalog.ClearQueue | remote_scanner.py:283-287 | exactly the queued rows are deleted |
| Catalog.ClearQueueKeepsHistory | remote_scanner.py:283-287 | nothing is queued afterwards, and the completed, failed and noted counts are unchanged |
| Catalog.RemoveFromQueue | web_app.py:228-239 | success exactly when a queued row with that id existed; only such a row is deleted |
| Catalog.RemoveFromQueueRemovesOne | web_app.py:233-237 | with distinct ids, exactly that one row is taken out and the others keep their order |
| Catalog.RemoveProcessedRefused | web_app.py:233-239 | a download that is not queued is never removed, and the answer is 404 |
| Catalog.GetStats | web_app.py:307-327 | the file count; the queued and completed counts per status; the total size is the sum of the file sizes, 0 for an empty catalogue |
| Catalog.TotalSizeAfterAddOrUpdate | remote_scanner.py:115-143 | storing a new file adds its size to the total; rescanning a known one replaces its old size by the new one |
| Catalog.StatsAfterQueueAndClear | web_app.py:313-327 | queueing adds one to the queued count; clearing brings it to 0 and keeps completions |
| Catalog.StrLeTotal | remote_scanner.py:270 | the file name order compares every pair of names |
| Catalog.StrLeTransitive | remote_scanner.py:270 | the file name order is transitive |
| Catalog.ListedBeforeIsPreorder | remote_scanner.py:270 | `last_seen DESC, filename` orders every pair of rows, transitively |
| Catalog.JoinFile | remote_scanner.py:250-252 | every file shows up at least once, and only with itself |
| Catalog.JoinFileCount | remote_scanner.py:250-252 | a file shows up once per (download, source) pair, with a missing side counted once |
| Catalog.JoinAllHasFile | remote_scanner.py:250-253 | every catalogued file is in the unfiltered join |
| Catalog.Where | remote_scanner.py:258-268 | exactly the rows that pass every given filter, each as often as before |
| Catalog.SearchFiles | remote_scanner.py:232-273 | the filtered join, each row as often as the join produces it, ordered by `last_seen` descending and then file name |
| Catalog.SearchWithoutFilters | remote_scanner.py:253-273 | with no filter every joined row is returned |
| Catalog.SearchByName | remote_scanner.py:258-260 | a wildcard-free name finds a file exactly when it occurs in the file name, ASCII case ignored |
| Requests.StoreAll | remote_scanner.py:407-416 | storing touches only the file table, adds at most one row per file, and keeps the database well formed |
| Requests.ScanAndStore | remote_scanner.py:398-418 | the reported count is the number of scanned files; afterwards every one is catalogued, and each row's `last_seen` is the clock reading of the last store of its file |
| Requests.StoreAllStamps | remote_scanner.py:115-143 | each file's row carries the clock reading taken when that file was last stored |
| Requests.StoreKeepsOtherRow | remote_scanner.py:115-143 | storing one file leaves every other file's row unchanged |
| Requests.ScanOrdersLastSeen | remote_scanner.py:115-143 | with the clock moving forward, a file scanned later gets a later `last_seen`, so the newest-first search lists the scan in reverse order |
| Requests.StoreAllKeeps | remote_scanner.py:407-416 | a catalogued file stays catalogued |
| Requests.RescanAddsNothing | remote_scanner.py:407-416 | storing files that are all catalogued adds no row |
| Requests.Range | remote_scanner.py:552 | `range(lo, hi)` is the integers from `lo` up to below `hi` |
| Requests.ParseRange | remote_scanner.py:551-552 | a range parses exactly when it has two `int()`-readable pieces |
| Requests.ParsePartsFails | remote_scanner.py:547-554 | the list fails exactly when one of its parts does |
| Requests.ParseQueueArg | remote_scanner.py:546-554 | the argument fails exactly when one of its comma-separated parts fails |
| Requests.ParseQueueList | remote_scanner.py:546-554 | a comma-separated list of ids reads back as those ids, in order and with repeats |
| Requests.ParseQueueRange | remote_scanner.py:549-552 | `a-b` reads as every id from `a` to `b`, inclusive |
| Requests.NegativeIdRejected | remote_scanner.py:549-551 | `-n` raises, because its start piece is empty |
| Requests.Found | remote_scanner.py:558-565 | every entry is a given id that names a catalogued file, and every such id is there; an unknown id is skipped |
| Requests.FitPrefix | remote_scanner.py:557-559 | the ids the loop gets through: a prefix of the list, all within SQLite's integer range, ending just before the first id that is not |
| Requests.QueueIds | remote_scanner.py:557-567 | each catalogued id before the first out-of-range one gets a queued row with no local path, and those rows stay; the count is the number of rows added; the loop is cut short exactly when some id is out of range |
| Requests.QueueCommand | remote_scanner.py:543-648 | an empty argument prints the help; a part that does not parse queues nothing; otherwise the catalogued ids are queued and counted up to the first out-of-range id |
| Requests.OverflowEndsQueue | remote_scanner.py:557-567 | `a,BIG,b` with `BIG` beyond SQLite's range queues `a`, stops, and never looks at `b` |
| Requests.QueueCommandKeepsRepeats | remote_scanner.py:546-567 | naming a catalogued id twice queues it twice |
| Requests.QueueableId | web_app.py:212-219 | an entry that converts gives an id SQLite can store |
| Requests.Convertible | web_app.py:212-219 | the entries that convert, at most one per entry and each within SQLite's integer range |
| Requests.QueueEntries | web_app.py:210-219 | each convertible entry is queued with its destination; the count is the number of rows added |
| Requests.AddToQueue | web_app.py:200-225 | an empty id list is refused with 400 and changes nothing; otherwise every convertible entry is queued and counted |
| Requests.AddOneId | web_app.py:212-217 | an id is queued with the destination stored under its decimal text, even when no file has that id |
| Requests.UnlistedAppend | remote_scanner.py:168-170 | a queued row naming a missing file does not change the queue listing |
| Requests.UnconvertibleEntriesSkipped | web_app.py:212-225 | a request whose entries all raise still succeeds, with count 0, and changes nothing |

## Left out

- SSH and SFTP: connecting, key loading, transport tuning and the worker threads. The chunk workers are the read loop over the file's bytes, and a failing worker is an index in a set.
- The `lftp` listing command and the `Popen` download trigger. These call other programs, so the listing text is an input.
- The terminal and web front ends: Rich tables, prompts, progress bars, Flask routing and templates, CSV export and the log file.
- Cache persistence: pickle files and the md5 file name. The cache is keyed by the path text, treating md5 as injective. A corrupt cache file reading as a miss is file I/O and is not modelled.
- Clocks: time is an integer passed in as `now`, or as one reading per stored file for a scan. A timestamp is that integer rather than ISO text, and the cache age is whole seconds.
- The `.partN` files a failed chunked download leaves behind, and a failure while reassembling the parts. Only what ends up at `local_path` is modelled.
- The SQLite engine: commits, connections and contention. Tables are sequences of rows with auto-increment counters.
- The order of search rows that tie on both `last_seen` and file name: SQL leaves it open, and the model fixes one stable order.
- Floating point: the `format_size` branches at or above 1 KiB are modelled only by their unit and decimal places (the number printed is not modelled), and the download manager's own float `format_size` is not modelled.
- Python library leniency: `int()` accepting `_` and non-ASCII digits, and `isdigit`, `strip` and `lower` beyond ASCII. Only ASCII text is modelled.
- `os.path.expanduser` for `~user`: such a value is returned unchanged, as for an unknown user.
- Newline translation in text-mode file reads.
- `Path.parent` and `os.path.join` are modelled on lists of components, so `..` segments and repeated slashes are not interpreted.
- JSON request bodies: only a list `file_ids` and string-valued `destinations` are modelled. Left out are:
  - fractional numbers;
  - a `destinations` value that is not an object, and `destinations` values that are not strings (stored as given);
  - a `file_ids` that is not a list: a non-empty string is iterated and queued character by character, an object by its keys, and a number raises `TypeError` before the per-entry `try`, giving a 500 response;
  - a body that is JSON but not an object, which fails at `data.get`;
  - a body that is not JSON at all.
- Recursive scanning in `scan_and_store`: the code only prints that it is not implemented.
- `export_to_csv`, `show_config`, `test_connection`, the main menus and the web page routes are not modelled: they are presentation only.
- The scanner's `--note`, `--source`, `--mark-complete` and `--mark-failed` commands are not modelled beyond the `Database` operations they call.
- Catalog.QueuedIn: states only `|r| <= |ds|`. The full membership and order facts are proved in GetQueuedFilesMembership and GetQueuedFilesAscending.
- Catalog.GetQueuedFiles: bounds the number of rows only. Membership and order are in the two lemmas named above.
- Format.FormatTime: states only a length bound. What the text means is FormatTimeReadsBack.
- RemoteListing.GetDirectorySize: states the zero cases only. The sum over reachable files is NodeSizeIsSumOfFiles and ListSizeIsSumOfFiles.
- BashConfig.GetDownloadPaths: states only the bound of five. Which slots appear is in SlotsAreConfigured, NoPathsConfigured and AllPathsConfigured.

## Findings

| source | as written | input that shows it | evidently intended | confidence | as-written member | corrected member |
|---|---|---|---|---|---|---|
| web_app.py:35 | the key pattern `[A-Z_]+` admits no digit, so `DOWNLOAD_PATH_1` is never stored and `get_download_paths` (web_app.py:49-52) always returns an empty list | a config file holding `DOWNLOAD_PATH_1="/data"` | keys such as `DOWNLOAD_PATH_1` are read, so configured destinations are offered | high; not executed | RegexConfig.WebPathsAlwaysEmpty | RegexConfig.FixedReaderListsPath |
| download-manager.py:113-119 | when the file's last line has no line break and the key is new, the appended `KEY=true\n` is glued onto that line | a config file `k=w` without a final newline, then `set_bool('SHOW_FOLDER_SIZES', True)` | the appended setting starts its own line, so the file reads back as the settings held in memory | high; not executed | BashConfig.AppendGluesToLastLine | BashConfig.SetBoolPersists |
| download-manager.py:107-111 | `set_bool` rewrites the first line that sets the key and stops, while the reader keeps the last one | a config file with `SHOW_FOLDER_SIZES=false` on two lines, then `set_bool('SHOW_FOLDER_SIZES', True)` | the line the reader keeps is rewritten, so the file reads back as the settings held in memory | high; not executed | BashConfig.RewriteShadowedBySecondDefinition | BashConfig.SetBoolPersists |
| download-manager.py:236 | with a negative chunk count, `range(chunks)` starts no worker and reassembly writes an empty file, yet success is reported for a file of 10 MiB or more | `DOWNLOAD_CHUNKS=-1` and a 20 MiB remote file | a chunk count below 1 fails the download, as 0 already does through the division | medium; not executed | Chunks.NegativeChunksWriteEmptyFile | Chunks.DownloadFileChecked |
