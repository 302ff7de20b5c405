# APDB: verified model

APDB keeps one NDJSON log of Polymarket events on disk, a ticker-sorted index of byte offsets in
memory, a background refresh that crawls the source, merges the crawl with what is already stored
and swaps the result in under running readers, and a peer-to-peer transfer of whole logs. This
project models that machinery in Dafny and proves what it keeps.

Four lines of argument run through it.

* **Log and index.** A log is a byte sequence, a ticker a byte string under the order `str::cmp`
  uses, an index a sequence of (ticker, offset, length). Loading is proved to answer every lookup
  as a plain scan of the log's lines would, down to the bytes returned.
* **Refresh.** The crawl and the two-pointer merge are methods over a file that may refuse bytes
  at any point; what they write is proved to reload to exactly the snapshot they built in memory.
  From that follows what is served for a ticker after any number of cycles, and, in a transition
  system of paths, inodes, readers, cycles, pulls and crashes, that no reader ever sees its bytes
  move.
* **Crawl.** The cursor iterator is a class over its four fields. For every source it stays below
  the offset cap, and it terminates exactly when only so many answers wrap its 32-bit offset; of a
  sorted source it is complete within an arithmetic bound, up to a page of nothing but unparseable
  items.
* **Mesh.** The sender's lock, port, pin and reply are a transition system over any number of
  handlers; streaming through the write buffer, receiving, staged install and the choice of peer
  are methods, composed from the sender's reads to the receiver's disk.

| file | contents |
|---|---|
| `bytes.dfy`, `sorting.dfy`, `records.dfy` | byte order and UTF-8; stable sorting; JSON records and the hypotheses on libraries |
| `log.dfy`, `database.dfy`, `queries.dfy`, `assets.dfy` | lines, index, loading, lookup, paging, prefix search, asset ids |
| `compaction.dfy`, `refresh.dfy`, `superseded.dfy` | what a cycle computes, the cycle as it runs, duplicates left in the log |
| `history.dfy`, `refresh_loop.dfy`, `store.dfy` | whole runs, the shared handle and its loop, the file system and every interleaving |
| `crawl.dfy`, `coverage.dfy` | the cursor, and what it covers of a sorted source |
| `sender.dfy`, `transfer.dfy`, `bootstrap.dfy` | exclusive sending, the transfer, the choice of peer |

## Where the code and its own words differ

The model follows the code. In each case the exact condition is proved.

* "Never evicts" (`src/database.rs:190-192`, `docs/API.md:238-243`, `src/refresh.rs:213-217`): the
  merge prunes and drops records. `History.DisappearsIff` says exactly when a ticker goes,
  `History.NullTickerEvicted` gives one that does. For a paging client the promise "no skip" then
  fails too: `History.EvictedTickerSkipped` is a client and a refresh for which it does,
  `Queries.PagingShowsIff` says exactly which tickers a client sees.
* The log does not contain "exactly" the deduplicated set (`src/refresh.rs:61-62`): duplicates
  within one crawl stay in the file, in crawl order. `Superseded.LogHoldsEachTickerOnceIff` and
  `Superseded.LogIsIndexIff` say when it is deduplicated and when it is, record for record, the
  sorted set; `Superseded.DuplicateStaysInLog` is a crawl after which it is not.
* A torn tail is not always dropped (`src/database.rs:63-67`): a cut inside a multi-byte character
  fails the load. `Database.TornTail`; `Database.TornInsideCharacter` is such a log.
* Items that fail to parse lower the count the cursor advances by (`src/poly_api.rs:111-131`,
  `src/poly_api.rs:244`). That alone loses nothing, but a page of nothing but such items passes for
  the end of the source. `Coverage.CrawlSoundIff` and `Coverage.CrawlComplete` say exactly when that
  loses an event, `Coverage.BarrenPageLoses` is a source on which it does.
* The bytes sent need not be the ones the peer saw in `db_info` (`src/p2p_db_server.rs:200-203`):
  the pin is taken at `request_pull`. `Sender.PinMatchesDbInfoIff` and
  `Sender.StreamMatchesDbInfoIff` say exactly when they are, `Sender.DbInfoMayBeStale` is a run in
  which they are not.
* An accept timeout is not reported to the requester (`docs/MESH_SYNC.md:226-228`).
  `Sender.GivingUpIsSilent`, `Sender.OkMeansStreamedIff`; `Sender.TimeoutUnreported` is such a run.
  Nor does the deadline always end the wait: it is looked at only when nobody is connecting.
  `Transfer.AwaitRequester` says which poll ends it.
* A read error on the sender's file does not surface as a truncated stream
  (`src/p2p_db_server.rs:178-183`, `docs/MESH_SYNC.md:227-235`): the `?` at
  `src/p2p_db_server.rs:311` drops the encoder, and dropping a `GzEncoder` completes the frame,
  trailer included, of what it was given. The receiver accepts it and renames it over its
  database. `Transfer.AcceptedIsWholeIff` and `Transfer.ReplicaAgreementIff` say exactly when what
  is accepted is the sender's file, `Transfer.TruncatedReplica` what is served otherwise;
  `Transfer.FailedReadEmptiesReplica` is a transfer that puts an empty database over a working one.
* A failed flush of the trailer is not always observed (`src/p2p_db_server.rs:317-319`,
  `docs/MESH_SYNC.md:257-259`): `finish` leaves the last bytes in the `BufWriter`, which is then
  dropped, and with it any error. `Transfer.StreamSnapshot` says exactly when success is reported,
  `Transfer.SmallFrameNeverChecked` that a frame below the buffer's size always is a success;
  `Transfer.SuccessWithNothingSent` is such a run.
* The version match of a peer is not exact (`src/mesh_sync.rs:84-89`): the number is cut to 32 bits
  first (`src/mesh_sync.rs:146`). `Bootstrap.VersionMatchIff`.
* Record lengths are kept in 32 bits (`src/database.rs:111`). `Database.FetchIsWholeRecordIff`;
  `Database.LongRecordLost` is a record that reads back as nothing.
* Page lengths are added to a 32-bit offset (`src/poly_api.rs:244`). `Crawling.EndsIff` says
  exactly when a crawl still comes to its end, `Crawling.EndlessSpins` is a source on which it
  never does.

## Hypotheses

The functions of the JSON library, Unicode trimming and RFC 3339 dates (section 5.6 of RFC 3339)
are the fields of `Records.Codec`. Nothing is assumed of them globally: a theorem that needs it
asks of the values it prints that they are `Printable`, one line of valid UTF-8 that parses back
to the same fields. `PrintableCycle` and `ShortCycle` ask that of a crawl, and that its records are
shorter than 2^32 bytes. Trimming and date parsing are arbitrary functions throughout. gzip is
`Transfer.Gzip`; the hypothesis, for one payload, is that its frame decodes to it and that no
proper prefix of the frame decodes at all.

## Model

| member | source | states |
|---|---|---|
| ByteStrings.LessIff | src/database.rs:148 | the order of tickers: a proper prefix comes first, otherwise the first differing byte decides, as an unsigned number |
| ByteStrings.PrefixesComeFirst | src/database.rs:208-212 | among strings not below a prefix, those that start with it come first, which is what makes the second partition point valid |
| ByteStrings.Utf8IsEncoded | src/database.rs:98 | valid text is some scalar values encoded one after another |
| ByteStrings.EncodedIsUtf8 | src/database.rs:98 | and every such encoding is valid text |
| ByteStrings.Utf8Cut | src/database.rs:98 | a cut of valid text is valid text exactly at a character boundary |
| Sorting.StableSortCorrect | src/database.rs:148 | the sort orders its input and leaves ties in input order |
| Sorting.StableSortUnique | src/database.rs:148 | two sorted sequences with the same ties in the same order are equal, so nothing depends on the sorting algorithm |
| Records.EventRoundTrip | src/poly_api.rs:29-36 | reading an event back from its own JSON value gives the same event |
| Records.EventOfIff | src/poly_api.rs:29-36 | which values are events, field by field: a text ticker, and an end date that is missing, null or text, missing and null being the same |
| Records.StoredAsRead | src/refresh.rs:125 | storing an event as it was read gives the same object, with a null where the end date was missing |
| Log.BuildIndexCorrect | src/database.rs:148-149 | sorting and keeping the last of each run yields strictly increasing tickers and answers every lookup as the raw entries do |
| Log.IndexExtensional | src/database.rs:148-149 | two indexes that answer all lookups alike are the same sequence |
| Log.IndexedIff | src/database.rs:115-139 | which lines are indexed, read off the JSON: objects with a non-blank text ticker but for the meta line, under the trimmed ticker, at the line's place, with its length in 32 bits |
| Log.HeaderIs | src/database.rs:80-127 | build time and version of a log: those its meta line carries, the fallback and 1 where it carries none, the fallback and 0 without a meta line |
| Log.LastForIff | src/database.rs:43-45 | a lookup's answer is the entry after which none has the ticker |
| Database.LastLineIff | src/database.rs:43-45 | and its record the line after which none is a record of the ticker |
| Database.DedupeKeepLast | src/database.rs:46-60 | the nested loops compute the last entry of every run of equal tickers |
| Database.FromFile | src/database.rs:68-165 | the scanning loop fails exactly on invalid UTF-8 and otherwise yields the index, line count, build time and version that the log's complete lines mean |
| Database.ScanOnIsScan | src/database.rs:96-145 | scanning on from any line boundary, offset counted along, ends where a scan of the list of lines does |
| Database.FindIsLinearScan | src/database.rs:167-172 | binary search finds the entry a linear scan finds, and nothing when it finds none |
| Database.LoadedFetch | src/database.rs:46-185 | after loading, lookup and positioned read return the last well-formed non-meta record of the ticker in the file, and nothing when there is none |
| Database.FetchIsWholeRecordIff | src/database.rs:110-113 | the bytes returned are the whole record if and only if it is shorter than 2^32 bytes |
| Database.LongRecordLost | src/database.rs:110-113 | a record padded with spaces to 2^32 bytes, indexed and read back as no bytes |
| Database.LoadSound | src/database.rs:26-40 | loading pairs the file with an index in which every entry addresses one newline-free record of its own ticker |
| Database.SoundReads | src/database.rs:176-185 | on such a pair a lookup that finds an entry reads and parses a record of that ticker, without error |
| Database.TornTail | src/database.rs:96-152 | a log cut at any byte loads if and only if the cut is a character boundary, and then its index is that of the lines complete before the cut, offsets and lengths unchanged |
| Database.TornInsideCharacter | src/database.rs:98 | after any valid log, a last line cut inside a two-byte character fails the whole load |
| Queries.CursorRangeIsScan | src/database.rs:193-206 | a page is the first `limit` entries of a linear scan beyond the cursor; a cursor is handed out exactly when a non-empty page leaves some, and names the page's last ticker |
| Queries.StartBehind | src/database.rs:193-206 | a page that continues from an entry's ticker starts right behind that entry |
| Queries.ResolveLimit | src/api.rs:119-125 | refused exactly for an explicit zero; otherwise the default, or the smaller of request and maximum, and never zero |
| Queries.ListTickersIs | src/api.rs:188-206 | the first tickers beyond the cursor, 5000 or as many as asked for up to 20000, and a cursor exactly when more follow |
| Queries.PagingNeverRepeats | src/api.rs:188-206 | a client feeding cursors back sees strictly increasing tickers, each page possibly from another snapshot |
| Queries.PagingShowsIff | src/database.rs:187-206 | a client that reaches the null cursor has seen a ticker if and only if the snapshot that served the page reaching it holds it |
| Queries.PagingMissesNothing | src/database.rs:187-206 | it has therefore seen every ticker present in all the snapshots used |
| Queries.PrefixRangeIsFilter | src/database.rs:208-212 | the two partition points select exactly the tickers with the prefix, in order |
| Queries.PrefixSearchCorrect | src/api.rs:283-305 | refused exactly for an empty prefix or a zero limit; otherwise the first matches in order, 50 or as many as asked for up to 500, `truncated` exactly when there are more |
| Queries.GetEventIsLinearScan | src/api.rs:127-153 | the reply is the last record of the trimmed ticker in the log, an absent event when there is none, and only a blank ticker is refused |
| Assets.ExtractAssetIds | src/api.rs:223-240 | the loops list every market's ids, tagged with its position |
| Assets.StringsAre | src/api.rs:215 | of a native list exactly the strings are taken, all of them, in order |
| Assets.ParsedAreGiven | src/api.rs:212-218 | the ids a field gives: text those of the list of nothing but strings it parses to, a native list its strings, anything else none |
| Assets.MarketIdsAre | src/api.rs:228-234 | a market's ids are those its `clobTokenIds` gives, and if that gives none those its `positionIds` gives |
| Assets.TextIdsListed | src/api.rs:208-214 | `clobTokenIds` as text of a list of strings lists exactly these |
| Assets.PositionIdsListed | src/api.rs:230-234 | without `clobTokenIds`, a native `positionIds` lists its strings |
| Assets.IdsOfMembers | src/api.rs:223-240 | an id is listed under a position if and only if the market there has it, and positions never decrease |
| Assets.ListedIff | src/api.rs:254-275 | an asset is listed for a run of records if and only if one of them, filed under its ticker, holds in its `markets` list, at its index, a market with its id |
| Assets.ListEntry | src/api.rs:255-275 | one record's ids are pushed after those already there, labelled with its ticker, or the record cannot be read |
| Assets.HandleListAssetIds | src/api.rs:242-281 | the handler returns the expansion of the page's records and the page's cursor, or an error exactly when a record cannot be read |
| Assets.ListAssetIdsIs | src/api.rs:242-281 | the first records beyond the cursor are expanded, 500 or as many as asked for up to 2000, with a cursor exactly when more follow; refused only for none asked for or a record that cannot be read |
| Assets.PageSizeIndependence | src/api.rs:242-281 | whatever the page sizes, following cursors to the end collects the one flat expansion of the whole index |
| Assets.CollectFinishes | src/api.rs:242-281 | the null cursor is reached after at most one page a ticker and one more |
| Assets.SoundNeverInternalError | src/api.rs:255-266 | on a sound snapshot the only error is the one for a zero limit |
| Compaction.LinesAppend | src/refresh.rs:126-133 | writing a record and a newline adds one line, at the offset that was the length so far |
| Compaction.AddRecordAccurate | src/refresh.rs:125-133 | one more record keeps the log loadable and the noted entries equal to what scanning it finds |
| Compaction.CarriedEntries | src/refresh.rs:233-278 | carried entries are strictly sorted, come from the old index and share no ticker with the fresh ones |
| Compaction.MergeSorted | src/refresh.rs:280-283 | the merged index is strictly sorted and answers lookups from both parts |
| Compaction.MergedIsBuilt | src/refresh.rs:158-159 | the index merged from deduplicated and carried entries is the one that sorting and deduplicating all raw entries at once would build |
| Compaction.ReloadAgreement | src/refresh.rs:82-210 | loading the log a cycle wrote gives exactly the snapshot built in memory: index, line count, build time, format version, whatever the file's mtime |
| Refresh.LogWriter.WriteLine | src/refresh.rs:126-127 | a record goes in whole with its newline if there is room, and otherwise the write fails |
| Refresh.MergeCarryForward | src/refresh.rs:222-284 | succeeds exactly when every record to carry is readable and fits; then the file, the sorted index, the running offset and both counts are those of the entry-by-entry account of fates |
| Refresh.PointerDecides | src/refresh.rs:234-237 | where the second pointer stops, its ticker decides whether the old one was crawled again |
| Refresh.FatesPartition | src/refresh.rs:233-278 | every old entry is recrawled, carried, pruned or dropped, and on a sound snapshot none is unreadable |
| Refresh.WritePage | src/refresh.rs:119-135 | a page's events with non-blank tickers go to the file in order, each entry at the offset its record starts; it fails exactly when they do not all fit |
| Refresh.CrawlPass | src/refresh.rs:105-146 | a pass writes its events up to the first failed page; it fails on such a page only when strict, or when the file is full |
| Refresh.FullCrawlAndCompact | src/refresh.rs:64-211 | succeeds exactly when the cycle's outcome is a snapshot whose log fits; then the file holds that log and the snapshot returned is that outcome |
| Superseded.LogHolds | src/refresh.rs:61-62 | the new log, initial or not, lists every crawled record and then the carried ones, and its index is built from that list |
| Superseded.LogHoldsEachTickerOnceIff | src/refresh.rs:61-62 | "deduped": the log holds each ticker once if and only if the crawl filed no two events under one ticker |
| Superseded.LogIsIndexIff | src/refresh.rs:61-62 | "exactly that merged, deduped, sorted set": the log is record for record the index if and only if the crawled tickers strictly increase and every old record whose fate is to be carried lies above them |
| Superseded.DuplicateStaysInLog | src/refresh.rs:61-62 | a crawl with one event twice, after which the log is longer than the index |
| History.RefreshedRecord | src/refresh.rs:64-284 | after a successful cycle, initial or not, a ticker is served the crawl's last event for it, or its old record byte for byte, or nothing when there was none or it is one to evict |
| History.CompactSound | src/refresh.rs:204-210 | a successful cycle hands over a sound snapshot again |
| History.CompactSucceeds | src/refresh.rs:64-211 | on a sound snapshot a cycle's outcome is an error exactly when its first pass fails |
| History.InitialSucceeds | src/refresh.rs:161-172 | the initial crawl's outcome is an error exactly when its first pass fails or no event has a ticker |
| History.CrawledRecordEvicted | src/refresh.rs:241-264 | a record the crawl itself stored is evicted if and only if its ticker is literally "null" or its end date passed more than 14400 s ago |
| History.UncrawledRecordIff | src/refresh.rs:239-264 | the fate of a record no longer crawled, read off its JSON: gone after a successful cycle if and only if it is named "null", its end date is neither null nor text, or `endDate + 14400 < now`; otherwise the same bytes |
| History.SecondPassWins | src/refresh.rs:96-104 | where both passes found a ticker the v2 pass's event is stored |
| History.LastCrawledIff | src/refresh.rs:119-135 | the event stored is the one after which none of the crawl trims to the ticker |
| History.AfterRecord | src/refresh.rs:304-311 | one turn of the loop for one ticker, failed turns included |
| History.RunSound | src/refresh.rs:296-313 | every run from a sound snapshot serves sound snapshots |
| History.DisappearsIff | src/refresh.rs:296-313 | a known ticker disappears in a turn if and only if the turn succeeds without crawling it and its stored record is one to evict |
| History.WholeRun | src/refresh.rs:296-313 | over any run with any crawls, clocks and failures, the record served is the last event of the last successful cycle that crawled the ticker, or the boot record, as long as no later successful cycle evicted it |
| History.NullTickerEvicted | src/refresh.rs:213-217 | one concrete event that is gone after a cycle that does not crawl it |
| History.EvictedTickerSkipped | src/database.rs:190-192 | a client shown the first of two tickers, a refresh that evicts the second, and a walk that ends without it |
| RefreshLoop.RefreshOnce | src/refresh.rs:305-309 | a turn swaps in the cycle's outcome exactly when there is one, it fits and it can be published; otherwise what is served is untouched |
| RefreshLoop.SpawnRefreshLoop | src/refresh.rs:296-313 | after any turns the handle holds, soundly, what the run of their attempts makes of the boot snapshot |
| RefreshLoop.LoopServesHistory | src/refresh.rs:296-313 | and serves for every ticker the record that history dictates |
| Store.OnlyTmpWritten | src/refresh.rs:70-75 | no step writes or truncates any inode but the staging file's; only a reclaimed one disappears |
| Store.PinnedNeverChanges | src/database.rs:29-33 | no step changes the bytes under a snapshot in use, and the file system reclaims none of them |
| Store.PathBytesAfter | src/refresh.rs:187-192 | the published bytes change only at a rename, to the complete log of a finished cycle or to a staged file that has loaded |
| Store.AlwaysInv | src/refresh.rs:64-211 | every reachable state keeps live snapshots backed by their inodes and equal to their history, the staging file private and the path loadable |
| Store.EveryReaderServed | src/database.rs:176-180 | in every reachable state, whoever holds a snapshot reads from its inode a whole newline-free record of exactly the ticker looked up |
| Store.HeldSnapshotsStable | src/database.rs:29-33 | a snapshot held over any stretch of a run reads the same bytes at both ends |
| Store.PathAlwaysLoads | src/main.rs:115-118 | whenever the process dies, what is at the path loads into a sound snapshot |
| Store.ServedRecordIsHistory | src/refresh.rs:296-313 | in every reachable state the record any snapshot in use holds is the one dictated by the cycles run since its log was first found, crawled or pulled, restarts included |
| Store.BootServesHistory | src/main.rs:115-118 | whenever the process dies, the next boot serves what the published log's whole history dictates |
| Store.LogIsPublished | src/refresh.rs:187-192 | that history is the run of everything renamed into place since the first boot, the last initial crawl or the last pull, if no cycle fails between its rename and its swap |
| Store.BootServesPublished | src/main.rs:115-118 | and then the next boot serves what that run dictates |
| Store.ServerIsLastServed | src/database.rs:233-239 | what is served is what was last swapped in, pulled or loaded since the process started |
| Store.ReaderKeepsItsSnapshot | src/database.rs:215-240 | a reader has what was served when it came, until it leaves, whatever is swapped in |
| Store.NobodyAfterCrash | src/database.rs:29-33 | a crash leaves the disk as it is and nobody with a snapshot |
| Store.StagingIsWhatCame | src/refresh.rs:126-127 | the staging file holds just what was written or received since it was created, and so does what is renamed into place |
| Store.CycleGoesLive | src/refresh.rs:187-210 | from every reachable state with an idle writer, a cycle whose crawl succeeds can be run to where its log is at the path and its snapshot served |
| Store.BootGoesLive | src/main.rs:115-131 | a boot can serve the log it finds |
| Store.PullGoesLive | src/mesh_sync.rs:188-255 | and a log it pulls, once that loads |
| Store.FailureLeavesService | src/refresh.rs:286-289 | a failure leaves what is served and published as they were, a failed pull no staging file, and the writer free for the next cycle |
| Store.SupersededIsReclaimed | src/database.rs:29-33 | when the last reader of a superseded log leaves, its inode can be reclaimed |
| Crawling.FetchEvents | src/poly_api.rs:111-133 | the loop keeps the items that parse, in order |
| Crawling.NothingDroppedIff | src/poly_api.rs:111-131 | the count is that of the items sent if and only if all of them parse |
| Crawling.OpenEventsIter.constructor | src/poly_api.rs:174-185 | a new iterator stands at the start: no boundary, offset and pass count zero, not finished |
| Crawling.OpenEventsIter.Next | src/poly_api.rs:205-268 | one call yields and moves all four fields as the cursor's step function says, for any answer of the source |
| Crawling.ProgressIff | src/poly_api.rs:244-265 | a page lowers what the cursor can still go if and only if its length does not wrap the 32-bit offset; if it does, it costs less than a pass |
| Crawling.QueriesBelowCap | src/poly_api.rs:219-228 | whatever the source returns, for a positive cap no query of any run has an offset at or past it |
| Crawling.QueriesAre | src/poly_api.rs:219-228 | every query of a run carries the iterator's page limit and version, its offset, and as lower bound, from the second pass on, the end date of the last event of the page that began the pass |
| Crawling.DefaultQueries | src/poly_api.rs:194-200 | with the program's limits every query asks for 100 items at an offset below 2000 |
| Crawling.PassesStart | src/poly_api.rs:244-265 | a pass begins exactly where a page reaches the cap and ends on an end date other than the pass's own; where it ends on none or on that one, the run is over |
| Crawling.CrawlBound | src/poly_api.rs:205-268 | whatever the source returns, any number of calls yield at most `max_iterations * max(cursor_cap, 1)` pages, and one pass more for each page that wraps the offset |
| Crawling.NothingAfter | src/poly_api.rs:206-241 | nothing is returned after the end or after an error, so there is at most one error |
| Crawling.EndsWithin | src/poly_api.rs:205-268 | a run with so many wrapping pages ends within so many calls |
| Crawling.EndsIff | src/poly_api.rs:205-268 | a run ends if and only if the number of its pages that wrap the offset is bounded |
| Crawling.EndlessSpins | src/poly_api.rs:244 | on a source whose every answer has 2^32 events the cursor never leaves the start and every call returns a page |
| Crawling.Drain | src/refresh.rs:107-144 | calling `next` until it returns nothing ends, under just that condition, with exactly the items of the whole run |
| Coverage.AdvanceRestarts | src/poly_api.rs:244-253 | a new pass restarts at or before the end of what is covered, at a boundary no earlier than its own |
| Coverage.BoundaryMovesOn | src/poly_api.rs:249-252 | where a date has one spelling, a new boundary is strictly later |
| Coverage.AsksForPosition | src/poly_api.rs:219-228 | a source that answers by the lower bound, offset, version and limit of the query it receives starts where the cursor stands |
| Coverage.CrawlSoundIff | src/poly_api.rs:230-265 | at any point of a crawl of a fixed sorted source, whatever its spellings of a date and the lengths of its pages, every event has been yielded if and only if no unyielded one is left from where the cursor stands; so it is for the empty page the crawl stops on |
| Coverage.CrawlSound | src/poly_api.rs:238-242 | where every item parses, a crawl that stops on an empty page has yielded every event |
| Coverage.BarrenPageLoses | src/poly_api.rs:111-131 | a source of one unparseable item and one event: its crawl ends at the first call, and the event is never yielded |
| Coverage.FullPassMoves | src/poly_api.rs:247-253 | if at most `m` below the cap share an end date, a full pass moves on by at least the cap less `m` |
| Coverage.CrawlComplete | src/poly_api.rs:205-268 | the whole crawl of a dated source of at most `(max_iterations - 1) * (cursor_cap - m) + cursor_cap` items meets no error and yields every event if and only if it did not stop on an empty page with an unyielded one behind it |
| Coverage.DefaultCrawlComplete | src/poly_api.rs:194-200 | with the program's limits a source of `49 * (2000 - m) + 2000` events is yielded whole |
| Coverage.ModerateCrawlEnds | src/poly_api.rs:205-268 | a crawl whose offsets stay in 32 bits ends within `max_iterations * max(cursor_cap, 1) + 2` calls |
| Coverage.SourceIsServed | src/refresh.rs:64-211 | after a cycle, initial or not, either of whose passes was such a crawl, every event of that source with a non-blank ticker is served under it |
| Sender.ExclusiveSend | src/p2p_db_server.rs:184-277 | in every interleaving at most one handler holds the sender role, only that one can have the port open, and a free lock means a closed port |
| Sender.PortFreeAtBind | src/p2p_db_server.rs:206-214 | whenever a handler binds the port no other one has it |
| Sender.OneReply | src/p2p_db_server.rs:191-224 | a request never gets two replies and has one when it is finished; it is "ok" only with the port bound and a snapshot pinned |
| Sender.ReplyMeansIff | src/p2p_db_server.rs:191-224 | a handler has said "busy" if and only if another had the lock when it tried it, "bind_failed" if and only if the port could not be bound or set up, "ok" if and only if it got past both |
| Sender.PinnedWhenTaken | src/p2p_db_server.rs:200-204 | a handler's snapshot is the one served at its own pin, whatever is swapped in later |
| Sender.StreamsArePinned | src/p2p_db_server.rs:226-276 | every stream goes out on a connection whose far end is the address that asked, and carries the snapshot pinned for that request |
| Sender.PinMatchesDbInfoIff | src/p2p_db_server.rs:158-204 | the snapshot pinned for a pull is the one an earlier `db_info` described if and only if no swap came in between or the last one put that snapshot back |
| Sender.StreamMatchesDbInfoIff | src/p2p_db_server.rs:158-276 | and so is the snapshot that is streamed |
| Sender.DbInfoMayBeStale | src/p2p_db_server.rs:200-204 | a run in which a peer is told about one snapshot and its pull is pinned to another |
| Sender.GivingUpIsSilent | src/p2p_db_server.rs:237-254 | once a handler has given up after its "ok", the request gets no further reply and no bytes |
| Sender.TimeoutUnreported | src/p2p_db_server.rs:237-254 | a run in which a request is told "ok", nobody connects, and nothing more is said or sent |
| Sender.OkMeansStreamedIff | src/p2p_db_server.rs:224-277 | a finished request that was told "ok" was streamed to if and only if its handler did not give up |
| Sender.PullServed | src/p2p_db_server.rs:184-277 | a run in which a request is told "ok" and sent the database, and lock and port are let go |
| Sender.HolderStep | src/p2p_db_server.rs:174-277 | every step the lock holder can take, on whatever path, lets go of the lock with the port closed, or gets closer to it, or refuses a stranger and changes nothing |
| Sender.EveryPathReleases | src/p2p_db_server.rs:174-198 | in any run, once the holder has taken as many steps as it had left, refusals aside, the lock has been let go with the port closed |
| Sender.LockCanBeReleased | src/p2p_db_server.rs:174-198 | and the holder is never stuck: its own steps can always get it there |
| Transfer.ReadAt | src/p2p_db_server.rs:310-315 | a positioned read returns the file's bytes from there on, no more than the buffer has room for, possibly fewer, and none only at the end |
| Transfer.Connection.Write | src/p2p_db_server.rs:308 | a buffered write takes and holds back what a `BufWriter` does, keeps what is sent and held in order, and fails exactly when it must push out more than the connection takes |
| Transfer.Deliver | src/p2p_db_server.rs:308-320 | however the encoder cuts the frame up, delivering it fails exactly when the connection takes less than all but what the buffer holds at the end |
| Transfer.ThroughReachesAll | src/p2p_db_server.rs:309-316 | if nothing fails on the way, the encoder gets to the end of the file |
| Transfer.TimeoutCompletesPart | src/p2p_db_server.rs:314 | a write that times out leaves the frame of what was encoded so far to be sent |
| Transfer.StreamSnapshot | src/p2p_db_server.rs:305-322 | the connection gets the whole frame of as much of the pinned file as the encoder got, or as much of that frame as it takes; success is reported exactly when nothing failed on the way and all but the buffer's last bytes were taken |
| Transfer.SmallFrameNeverChecked | src/p2p_db_server.rs:317-320 | a frame smaller than the buffer is still all in it when the encoder has finished |
| Transfer.SuccessWithNothingSent | src/p2p_db_server.rs:317-321 | a run that reports success with nothing sent |
| Transfer.AwaitRequester | src/p2p_db_server.rs:226-248 | the wait ends with the requester's connection, or gives up exactly at an accept error or when nobody is there at or past the deadline; every poll before is a stranger, or nobody before the deadline |
| Transfer.Receive | src/mesh_sync.rs:207-242 | whatever the chunk sizes, success means the whole payload is in the staging file |
| Transfer.PullFromPeer | src/mesh_sync.rs:157-256 | succeeds exactly when the peer agrees and the payload is whole, fits, loads and can be renamed; then the path holds exactly it, otherwise the path is as it was, and a refusal touches no file |
| Transfer.LoadedAlikeIff | src/database.rs:80-127 | index, lines and version never depend on where a file is loaded; the build time does not if and only if the file carries it |
| Transfer.OnlyWholeFramesArrive | src/mesh_sync.rs:198-211 | of a frame and its first parts only the whole frame is accepted |
| Transfer.AcceptedIsWholeIff | src/p2p_db_server.rs:178-183 | what is accepted is the file as far as the sender's encoder got, so it is the pinned file if and only if that was to the end |
| Transfer.Replicate | src/mesh_sync.rs:157-256 | from the sender's reads to the receiver's disk: the pull succeeds exactly when the whole frame is sent and arrives, what it holds fits, is valid text and can be renamed, and then that is at the path and is what is served |
| Transfer.ReplicaAgreementIff | src/mesh_sync.rs:203-247 | after such a pull the receiver serves the sender's snapshot if and only if the encoder got to the end of the file, when the file carries its build time |
| Transfer.TruncatedReplica | src/database.rs:96-152 | otherwise it serves the index of the lines the sender got through whole, or the pull fails if the encoder stopped inside a character |
| Transfer.FailedReadEmptiesReplica | src/p2p_db_server.rs:311 | a transfer whose first read fails: an empty database is renamed over a working one |
| Transfer.RefreshedLogsReplicate | src/refresh.rs:82-89 | a log written by a refresh always carries its build time |
| Bootstrap.CandidatesAreEligible | src/mesh_sync.rs:78-96 | the candidates are exactly the peers that answered with this format version in 32 bits and an age, saturating at zero, below the TTL |
| Bootstrap.CandidatesInOrder | src/mesh_sync.rs:79-96 | the candidates stand in the order of the answers |
| Bootstrap.EligibleIff | src/mesh_sync.rs:89-94 | an answer is eligible if and only if its version is 1 in 32 bits, the TTL is not zero and `now < built_at + ttl` |
| Bootstrap.VersionMatchIff | src/mesh_sync.rs:146 | an advertised version matches if and only if it is this one and some multiple of 2^32 |
| Bootstrap.FirstInSortedIsBest | src/mesh_sync.rs:97-117 | the first candidate in sorted order that can be pulled has a `built_at` no smaller than any that can, and of those with the same none before it in the list can |
| Bootstrap.PullFreshest | src/mesh_sync.rs:101-118 | nothing is returned exactly when no candidate can be pulled; otherwise the result comes from the best one |
| Bootstrap.TryBootstrapFromPeers | src/mesh_sync.rs:60-119 | the same over any set of peer answers |

## Left out

- HTTP, proxy racing and request building (`src/proxy.rs`): the source is an arbitrary function from requests to pages.
- Tailnet discovery (`src/tailnet_fns.rs`), the control-plane line protocol, socket timeouts and the Unix-socket server (`src/server.rs`): plumbing around the operations modelled.
- gzip (RFC 1952), JSON text, Unicode trimming and RFC 3339 dates: library functions under the hypotheses above.
- When the encoder hands over compressed bytes while it is still reading: the frame leaves in any number of pieces of any size, but in the model after the reads; what the connection gets of it is the same.
- Logging, progress output, version strings and environment parsing: no property beyond one line.
- `list_events` and the request dispatcher: `list_events` is `list_tickers` with each record read, so its paging is that of `Queries` and its reads those of `Database.SoundReads`.
- `fetch_all_markets_cached`: superseded by the streaming refresh.
- The age comparisons at boot (`src/main.rs:119-162`): the transition system of `Store` may take any of the boot's ways at any time.
- Several processes on one path, and what a disk keeps of unsynced writes: one writer, an atomic rename, and writes that survive a crash.
- Panics inside a handler and the recovery of a poisoned lock: every handler's exits are modelled, a panic is none of them.
- Store.AlwaysInv: a cycle's outcome is fixed when it starts, from the pinned old file, and written byte by byte afterwards; `Store.HeldSnapshotsStable` shows that the file read during the cycle is that one.
- Store.PathAlwaysLoads: logs found at first boot or pulled from a peer are taken to hold records shorter than 2^32 bytes, because the 32-bit length field cannot address longer ones.
- Refresh.FullCrawlAndCompact: flush, sync, rename and reopening come after it, in `RefreshLoop.RefreshOnce` and `Store`; a failing write is a full file.
- Coverage.CrawlComplete: needs a source that does not change during the crawl and gives every event an end date.
- Store.LogIsPublished: after a cycle that fails between its rename and its swap the process goes on from the snapshot it serves, so the next cycle supersedes the renamed log; `Store.BootServesHistory` holds there too, with the history of whichever log is at the path.
- Modification times: an arbitrary number, so the fallback for logs without a meta line is whatever the file system says.
