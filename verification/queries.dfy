/** Range queries on an index, and the pages a client builds from them
    (`cursor_range`, `prefix_range` in `src/database.rs`, the handlers in `src/api.rs`). */
module Queries {
  import opened ByteStrings
  import opened Outcomes
  import opened Records
  import opened Log
  import opened Database

  // ---------------------------------------------------------------- partition points

  /** `partition_point` on `s[lo..hi]`, by bisection. */
  function PartitionPoint(p: Bytes -> bool, s: seq<IndexEntry>, lo: nat, hi: nat): (r: nat)
    requires lo <= hi <= |s|
    ensures lo <= r <= hi
    decreases hi - lo
  {
    if lo == hi then lo
    else
      var mid := (lo + hi) / 2;
      if p(s[mid].ticker) then PartitionPoint(p, s, mid + 1, hi) else PartitionPoint(p, s, lo, mid)
  }

  ghost predicate Partitioned(p: Bytes -> bool, s: seq<IndexEntry>, lo: nat, hi: nat)
    requires lo <= hi <= |s|
  {
    forall i, j :: lo <= i < j < hi && p(s[j].ticker) ==> p(s[i].ticker)
  }

  lemma {:induction false} PartitionPointCorrect(p: Bytes -> bool, s: seq<IndexEntry>, lo: nat, hi: nat)
    requires lo <= hi <= |s| && Partitioned(p, s, lo, hi)
    ensures forall i :: lo <= i < hi ==> (p(s[i].ticker) <==> i < PartitionPoint(p, s, lo, hi))
    decreases hi - lo
  {
    if lo < hi {
      var mid := (lo + hi) / 2;
      if p(s[mid].ticker) {
        PartitionPointCorrect(p, s, mid + 1, hi);
      } else {
        PartitionPointCorrect(p, s, lo, mid);
      }
    }
  }

  /** The linear-scan meaning of a range query: the entries whose ticker satisfies `p`. */
  function Filter(s: seq<IndexEntry>, p: Bytes -> bool): seq<IndexEntry> {
    if s == [] then []
    else
      var front := Filter(s[..|s| - 1], p);
      if p(s[|s| - 1].ticker) then front + [s[|s| - 1]] else front
  }

  lemma {:induction false} FilterIsSlice(s: seq<IndexEntry>, p: Bytes -> bool, lo: nat, hi: nat)
    requires lo <= hi <= |s|
    requires forall i :: 0 <= i < |s| ==> (p(s[i].ticker) <==> lo <= i < hi)
    ensures Filter(s, p) == s[lo..hi]
  {
    if s != [] {
      var n := |s| - 1;
      var front := s[..n];
      if lo <= n && hi == |s| {
        FilterIsSlice(front, p, lo, n);
        assert p(s[n].ticker);
        assert s[lo..hi] == front[lo..n] + [s[n]];
      } else {
        var lo', hi' := if lo < n then lo else n, if hi < n then hi else n;
        FilterIsSlice(front, p, lo', hi');
        assert !p(s[n].ticker);
        assert s[lo..hi] == front[lo'..hi'];
      }
    }
  }

  // ---------------------------------------------------------------- keyset pagination

  predicate Beyond(after: Option<Bytes>, t: Bytes) {
    after.None? || Less(after.value, t)
  }

  function BeyondTest(after: Option<Bytes>): Bytes -> bool {
    t => Beyond(after, t)
  }

  /** Where the page after the cursor starts. */
  function Start(index: seq<IndexEntry>, after: Option<Bytes>): (r: nat)
    ensures r <= |index|
  {
    match after
    case None => 0
    case Some(a) => PartitionPoint(t => !Less(a, t), index, 0, |index|)
  }

  /** The page after the cursor and the cursor of the next page, if any. */
  function CursorRange(index: seq<IndexEntry>, after: Option<Bytes>, limit: nat): (seq<IndexEntry>, Option<Bytes>) {
    var start := Start(index, after);
    var end := if start + limit < |index| then start + limit else |index|;
    var page := index[start..end];
    (page, if end < |index| && page != [] then Some(page[|page| - 1].ticker) else None)
  }

  lemma StartCorrect(index: seq<IndexEntry>, after: Option<Bytes>)
    requires StrictlySorted(index)
    ensures forall i :: 0 <= i < |index| ==> (Beyond(after, index[i].ticker) <==> Start(index, after) <= i)
    ensures Filter(index, BeyondTest(after)) == index[Start(index, after)..]
  {
    if after.Some? {
      var p := (t: Bytes) => !Less(after.value, t);
      forall i, j | 0 <= i < j < |index| && p(index[j].ticker) ensures p(index[i].ticker) {
        LessTrichotomy(index[i].ticker, index[j].ticker);
        AtMostTransitive(index[i].ticker, index[j].ticker, after.value);
      }
      PartitionPointCorrect(p, index, 0, |index|);
    }
    FilterIsSlice(index, BeyondTest(after), Start(index, after), |index|);
  }

  lemma CursorShape(index: seq<IndexEntry>, after: Option<Bytes>, limit: nat)
    ensures var start := Start(index, after); var (page, next) := CursorRange(index, after, limit);
      && page == index[start..][..if limit < |index| - start then limit else |index| - start]
      && (forall k :: 0 <= k < |page| ==> page[k] == index[start + k])
      && (next.Some? <==> 0 < limit < |index| - start)
      && (next.Some? ==> next.value == index[start + limit - 1].ticker)
  {
    hide Start;
    var start := Start(index, after);
    var n := if limit < |index| - start then limit else |index| - start;
    assert index[start..][..n] == index[start..start + n];
  }

  /** A page is the first `limit` entries of a linear scan for tickers beyond the cursor;
      a next cursor is handed out exactly when a non-empty page leaves some of them. */
  lemma CursorRangeIsScan(index: seq<IndexEntry>, after: Option<Bytes>, limit: nat)
    requires StrictlySorted(index)
    ensures var beyond := Filter(index, BeyondTest(after));
      var (page, next) := CursorRange(index, after, limit);
      && page == beyond[..if limit < |beyond| then limit else |beyond|]
      && (next.Some? <==> 0 < limit < |beyond|)
      && (next.Some? ==> next.value == beyond[limit - 1].ticker)
  {
    hide CursorRange;
    hide Filter;
    hide Start;
    StartCorrect(index, after);
    CursorShape(index, after, limit);
  }

  /** Continuing from an entry's ticker starts right behind that entry. */
  lemma StartBehind(index: seq<IndexEntry>, i: nat)
    requires StrictlySorted(index) && i < |index|
    ensures Start(index, Some(index[i].ticker)) == i + 1
  {
    var a := Some(index[i].ticker);
    StartCorrect(index, a);
    LessIrreflexive(index[i].ticker);
    assert !Beyond(a, index[i].ticker);
    assert i + 1 < |index| ==> Beyond(a, index[i + 1].ticker);
  }

  function Names(s: seq<IndexEntry>): (r: seq<Bytes>)
    ensures |r| == |s|
    ensures forall i :: 0 <= i < |s| ==> r[i] == s[i].ticker
  {
    seq(|s|, i requires 0 <= i < |s| => s[i].ticker)
  }

  // ---------------------------------------------------------------- limits

  /** An explicit zero is refused, other requests are clamped. */
  function ResolveLimit(requested: Option<nat>, default: nat, max: nat): (r: Option<nat>)
    ensures r.None? <==> requested == Some(0)
    ensures r.Some? && requested.Some? ==> r.value <= max && r.value <= requested.value
    ensures r.Some? && requested.Some? ==> r.value == max || r.value == requested.value
    ensures requested.None? ==> r == Some(default)
    ensures r.Some? && 0 < default <= max ==> 0 < r.value <= max
  {
    match requested
    case Some(n) => if n == 0 then None else Some(if n < max then n else max)
    case None => Some(default)
  }

  const DEFAULT_LIST_TICKERS_LIMIT := 5000
  const MAX_LIST_TICKERS_LIMIT := 20000
  const DEFAULT_LIST_ASSET_IDS_LIMIT := 500
  const MAX_LIST_ASSET_IDS_LIMIT := 2000
  const DEFAULT_PREFIX_SEARCH_LIMIT := 50
  const MAX_PREFIX_SEARCH_LIMIT := 500

  datatype BadRequest = BadRequest
  datatype TickerPage = TickerPage(tickers: seq<Bytes>, nextAfter: Option<Bytes>)

  function ListTickers(s: Snapshot, after: Option<Bytes>, requested: Option<nat>): Result<TickerPage, BadRequest> {
    match ResolveLimit(requested, DEFAULT_LIST_TICKERS_LIMIT, MAX_LIST_TICKERS_LIMIT)
    case None => Err(BadRequest)
    case Some(limit) =>
      var (page, next) := CursorRange(s.index, after, limit);
      Ok(TickerPage(Names(page), next))
  }

  /** A request lists the first tickers beyond the cursor: 5000 unless it says how many, never
      more than 20000, and none when it says none. */
  lemma ListTickersIs(s: Snapshot, after: Option<Bytes>, requested: Option<nat>)
    requires StrictlySorted(s.index)
    ensures ListTickers(s, after, requested).Err? <==> requested == Some(0)
    ensures ListTickers(s, after, requested).Ok? ==>
      var page, beyond := ListTickers(s, after, requested).value, Filter(s.index, BeyondTest(after));
      var limit := match requested case None => 5000 case Some(n) => if n < 20000 then n else 20000;
      && page.tickers == Names(beyond[..if limit < |beyond| then limit else |beyond|])
      && (page.nextAfter.Some? <==> limit < |beyond|)
      && (page.nextAfter.Some? ==> page.nextAfter.value == beyond[limit - 1].ticker)
  {
    hide CursorRange;
    hide Filter;
    if requested != Some(0) {
      var limit := ResolveLimit(requested, DEFAULT_LIST_TICKERS_LIMIT, MAX_LIST_TICKERS_LIMIT).value;
      CursorRangeIsScan(s.index, after, limit);
    }
  }

  // ---------------------------------------------------------------- paging across refreshes

  /** One request of a paging client: the snapshot that happened to serve it, and the limit
      it asked for. */
  datatype Request = Request(snap: Snapshot, limit: Option<nat>)

  function TickersShown(r: Request, after: Option<Bytes>): TickerPage
    requires r.limit != Some(0)
  {
    ListTickers(r.snap, after, r.limit).value
  }

  /** What the client saw, whether it reached a null cursor, and how many requests it made. */
  datatype Walk = Walk(seen: seq<Bytes>, finished: bool, used: nat)

  /** A client that feeds each page's cursor into its next request. */
  function PageThrough(reqs: seq<Request>, after: Option<Bytes>): (w: Walk)
    requires forall r :: r in reqs ==> r.limit != Some(0)
    ensures w.used <= |reqs|
  {
    if reqs == [] then Walk([], false, 0)
    else
      var page := TickersShown(reqs[0], after);
      if page.nextAfter.None? then Walk(page.tickers, true, 1)
      else
        var rest := PageThrough(reqs[1..], page.nextAfter);
        Walk(page.tickers + rest.seen, rest.finished, 1 + rest.used)
  }

  ghost predicate Holds(s: Snapshot, t: Bytes) {
    exists e :: e in s.index && e.ticker == t
  }

  ghost predicate Increasing(s: seq<Bytes>) {
    forall i, j :: 0 <= i < j < |s| ==> Less(s[i], s[j])
  }

  lemma LaterIsGreater(index: seq<IndexEntry>, i: nat, j: nat)
    requires StrictlySorted(index) && i < |index| && j < |index|
    ensures i < j <==> Less(index[i].ticker, index[j].ticker)
  {
    LessTrichotomy(index[i].ticker, index[j].ticker);
  }

  lemma PageCovers(index: seq<IndexEntry>, after: Option<Bytes>, limit: nat, e: IndexEntry)
    requires StrictlySorted(index) && limit > 0
    requires e in index && Beyond(after, e.ticker)
    requires var next := CursorRange(index, after, limit).1; next.Some? ==> !Less(next.value, e.ticker)
    ensures e in CursorRange(index, after, limit).0
  {
    hide CursorRange;
    hide Filter;
    hide Start;
    StartCorrect(index, after);
    CursorShape(index, after, limit);
    var (page, next) := CursorRange(index, after, limit);
    var start := Start(index, after);
    var i :| 0 <= i < |index| && index[i] == e;
    assert Beyond(after, index[i].ticker) && start <= i;
    if next.Some? {
      LaterIsGreater(index, start + limit - 1, i);
    }
    assert page[i - start] == e;
  }

  lemma PageIncreases(index: seq<IndexEntry>, after: Option<Bytes>, limit: nat)
    requires StrictlySorted(index)
    ensures Increasing(Names(CursorRange(index, after, limit).0))
    ensures forall t :: t in Names(CursorRange(index, after, limit).0) ==> Beyond(after, t)
  {
    hide CursorRange;
    hide Filter;
    hide Start;
    StartCorrect(index, after);
    CursorShape(index, after, limit);
  }

  lemma PageFacts(r: Request, after: Option<Bytes>)
    requires r.limit != Some(0) && StrictlySorted(r.snap.index)
    ensures var page := TickersShown(r, after);
      && Increasing(page.tickers)
      && (forall t :: t in page.tickers ==> Beyond(after, t))
      && (page.nextAfter.Some? ==> page.tickers != [] && page.nextAfter.value == page.tickers[|page.tickers| - 1])
  {
    var limit := ResolveLimit(r.limit, DEFAULT_LIST_TICKERS_LIMIT, MAX_LIST_TICKERS_LIMIT).value;
    PageIncreases(r.snap.index, after, limit);
  }

  lemma PageShows(r: Request, after: Option<Bytes>, t: Bytes)
    requires r.limit != Some(0) && StrictlySorted(r.snap.index)
    requires Holds(r.snap, t) && Beyond(after, t)
    requires var next := TickersShown(r, after).nextAfter; next.Some? ==> !Less(next.value, t)
    ensures t in TickersShown(r, after).tickers
  {
    var limit := ResolveLimit(r.limit, DEFAULT_LIST_TICKERS_LIMIT, MAX_LIST_TICKERS_LIMIT).value;
    var e :| e in r.snap.index && e.ticker == t;
    PageCovers(r.snap.index, after, limit, e);
    var page := CursorRange(r.snap.index, after, limit).0;
    var k :| 0 <= k < |page| && page[k] == e;
    assert Names(page)[k] == t;
  }

  lemma IncreasingAppend(a: seq<Bytes>, b: seq<Bytes>)
    requires Increasing(a) && Increasing(b) && a != []
    requires forall t :: t in b ==> Less(a[|a| - 1], t)
    ensures Increasing(a + b)
  {
    forall i, j | 0 <= i < |a| && 0 <= j < |b| ensures Less(a[i], b[j]) {
      assert b[j] in b;
      if i < |a| - 1 {
        LessTransitive(a[i], a[|a| - 1], b[j]);
      }
    }
  }

  /** Paging never goes back: the tickers seen strictly increase, so none repeats. */
  lemma {:induction false} PagingNeverRepeats(reqs: seq<Request>, after: Option<Bytes>)
    requires forall r :: r in reqs ==> r.limit != Some(0) && StrictlySorted(r.snap.index)
    ensures Increasing(PageThrough(reqs, after).seen)
    ensures forall t :: t in PageThrough(reqs, after).seen ==> Beyond(after, t)
  {
    if reqs != [] {
      PageFacts(reqs[0], after);
      var page := TickersShown(reqs[0], after);
      if page.nextAfter.Some? {
        PagingNeverRepeats(reqs[1..], page.nextAfter);
        var rest := PageThrough(reqs[1..], page.nextAfter).seen;
        var last := page.tickers[|page.tickers| - 1];
        IncreasingAppend(page.tickers, rest);
        forall t | t in rest ensures Beyond(after, t) {
          if after.Some? {
            assert last in page.tickers;
            LessTransitive(after.value, last, t);
          }
        }
      }
    }
  }

  lemma ShownIsHeld(r: Request, after: Option<Bytes>, t: Bytes)
    requires r.limit != Some(0) && t in TickersShown(r, after).tickers
    ensures Holds(r.snap, t)
  {
    var limit := ResolveLimit(r.limit, DEFAULT_LIST_TICKERS_LIMIT, MAX_LIST_TICKERS_LIMIT).value;
    var tickers, page := TickersShown(r, after).tickers, CursorRange(r.snap.index, after, limit).0;
    var k :| 0 <= k < |tickers| && tickers[k] == t;
    CursorShape(r.snap.index, after, limit);
    assert page[k] in r.snap.index;
  }

  lemma NotPastCursor(r: Request, after: Option<Bytes>, t: Bytes)
    requires r.limit != Some(0) && StrictlySorted(r.snap.index)
    requires t in TickersShown(r, after).tickers
    ensures var next := TickersShown(r, after).nextAfter; next.Some? ==> !Less(next.value, t)
  {
    hide ListTickers;
    hide StrictlySorted;
    hide Less;
    PageFacts(r, after);
    var page := TickersShown(r, after);
    if page.nextAfter.Some? {
      NotAboveLast(page.tickers, t);
    }
  }

  lemma NotAboveLast(s: seq<Bytes>, t: Bytes)
    requires Increasing(s) && t in s
    ensures !Less(s[|s| - 1], t)
  {
    var k :| 0 <= k < |s| && s[k] == t;
    LessTrichotomy(t, s[|s| - 1]);
    assert k < |s| - 1 ==> Less(s[k], s[|s| - 1]);
  }

  /** Which request's page reaches as far as `t`. */
  function TurnOf(reqs: seq<Request>, after: Option<Bytes>, t: Bytes): nat
    requires forall r :: r in reqs ==> r.limit != Some(0)
  {
    if reqs == [] then 0
    else
      var next := TickersShown(reqs[0], after).nextAfter;
      if next.None? || !Less(next.value, t) then 0 else 1 + TurnOf(reqs[1..], next, t)
  }

  /** Exactly what a client sees that pages to the null cursor while the database is refreshed
      under it: a ticker, if and only if the snapshot serving its turn holds it. */
  lemma {:induction false} PagingShowsIff(reqs: seq<Request>, after: Option<Bytes>, t: Bytes)
    requires forall r :: r in reqs ==> r.limit != Some(0) && StrictlySorted(r.snap.index)
    requires PageThrough(reqs, after).finished && Beyond(after, t)
    ensures TurnOf(reqs, after, t) < PageThrough(reqs, after).used
    ensures t in PageThrough(reqs, after).seen <==> Holds(reqs[TurnOf(reqs, after, t)].snap, t)
  {
    hide ListTickers;
    hide Holds;
    var page := TickersShown(reqs[0], after);
    if page.nextAfter.None? || !Less(page.nextAfter.value, t) {
      if Holds(reqs[0].snap, t) {
        PageShows(reqs[0], after, t);
      } else if t in page.tickers {
        ShownIsHeld(reqs[0], after, t);
      }
      if page.nextAfter.Some? {
        PagingNeverRepeats(reqs[1..], page.nextAfter);
      }
    } else {
      if t in page.tickers {
        NotPastCursor(reqs[0], after, t);
      }
      PagingShowsIff(reqs[1..], page.nextAfter, t);
    }
  }

  /** So a ticker present in all the snapshots that served the walk is seen; with
      `PagingNeverRepeats`, exactly once. */
  lemma PagingMissesNothing(reqs: seq<Request>, after: Option<Bytes>, t: Bytes)
    requires forall r :: r in reqs ==> r.limit != Some(0) && StrictlySorted(r.snap.index)
    requires PageThrough(reqs, after).finished && Beyond(after, t)
    requires forall i :: 0 <= i < PageThrough(reqs, after).used ==> Holds(reqs[i].snap, t)
    ensures t in PageThrough(reqs, after).seen
  {
    PagingShowsIff(reqs, after, t);
  }

  /** A client of two one-ticker requests: what the first shows, and how the second ends. */
  lemma TwoRequests(before: Snapshot, after: Snapshot)
    requires StrictlySorted(before.index) && |before.index| == 2
    requires StrictlySorted(after.index) && forall e :: e in after.index ==> e.ticker == before.index[0].ticker
    ensures var walk := PageThrough([Request(before, Some(1)), Request(after, Some(1))], None);
      walk.finished && walk.used == 2 && before.index[1].ticker !in walk.seen
  {
    var reqs, a := [Request(before, Some(1)), Request(after, Some(1))], before.index[0].ticker;
    LessIrreflexive(a);
    CursorShape(before.index, None, 1);
    assert TickersShown(reqs[0], None).nextAfter == Some(a);
    StartCorrect(after.index, Some(a));
    CursorShape(after.index, Some(a), 1);
    assert forall i :: 0 <= i < |after.index| ==>
      after.index[i] in after.index && !Beyond(Some(a), after.index[i].ticker);
    assert TickersShown(reqs[1], Some(a)).nextAfter == None && TickersShown(reqs[1], Some(a)).tickers == [];
    assert reqs[1..] == [reqs[1]];
    assert PageThrough(reqs[1..], Some(a)) == Walk([], true, 1);
    assert TickersShown(reqs[0], None).tickers == [a];
  }

  // ---------------------------------------------------------------- prefix search

  function PrefixRange(index: seq<IndexEntry>, prefix: Bytes): seq<IndexEntry> {
    var start := PartitionPoint(t => Less(t, prefix), index, 0, |index|);
    var end := PartitionPoint(t => prefix <= t, index, start, |index|);
    index[start..end]
  }

  function PrefixTest(prefix: Bytes): Bytes -> bool {
    t => prefix <= t
  }

  /** The two binary searches of a prefix query agree with filtering the whole index. */
  lemma PrefixRangeIsFilter(index: seq<IndexEntry>, prefix: Bytes)
    requires StrictlySorted(index)
    ensures PrefixRange(index, prefix) == Filter(index, PrefixTest(prefix))
  {
    var below := (t: Bytes) => Less(t, prefix);
    forall i, j | 0 <= i < j < |index| && below(index[j].ticker) ensures below(index[i].ticker) {
      LessTransitive(index[i].ticker, index[j].ticker, prefix);
    }
    PartitionPointCorrect(below, index, 0, |index|);
    var start := PartitionPoint(below, index, 0, |index|);
    var has := (t: Bytes) => prefix <= t;
    forall i, j | start <= i < j < |index| && has(index[j].ticker) ensures has(index[i].ticker) {
      LessTrichotomy(index[i].ticker, index[j].ticker);
      PrefixesComeFirst(prefix, index[i].ticker, index[j].ticker);
    }
    PartitionPointCorrect(has, index, start, |index|);
    var end := PartitionPoint(has, index, start, |index|);
    forall i | 0 <= i < |index| ensures prefix <= index[i].ticker <==> start <= i < end {
      if i < start && prefix <= index[i].ticker {
        PrefixAtMost(prefix, index[i].ticker);
      }
    }
    FilterIsSlice(index, PrefixTest(prefix), start, end);
  }

  datatype PrefixPage = PrefixPage(tickers: seq<Bytes>, truncated: bool)

  function PrefixSearch(s: Snapshot, prefix: Bytes, requested: Option<nat>): Result<PrefixPage, BadRequest> {
    if prefix == [] then Err(BadRequest)
    else
      match ResolveLimit(requested, DEFAULT_PREFIX_SEARCH_LIMIT, MAX_PREFIX_SEARCH_LIMIT)
      case None => Err(BadRequest)
      case Some(limit) =>
        var matches := PrefixRange(s.index, prefix);
        var shown := if limit < |matches| then limit else |matches|;
        Ok(PrefixPage(Names(matches[..shown]), |matches| > limit))
  }

  /** Autocomplete: the first `min(limit, count)` tickers with the prefix, in order, and
      `truncated` exactly when there are more than the limit. */
  lemma PrefixSearchCorrect(s: Snapshot, prefix: Bytes, requested: Option<nat>)
    requires StrictlySorted(s.index)
    ensures PrefixSearch(s, prefix, requested).Err? <==> prefix == [] || requested == Some(0)
    ensures PrefixSearch(s, prefix, requested).Ok? ==>
      var r := PrefixSearch(s, prefix, requested).value;
      var all := Names(Filter(s.index, PrefixTest(prefix)));
      var limit := match requested case None => 50 case Some(n) => if n < 500 then n else 500;
      && r.tickers <= all
      && |r.tickers| == (if limit < |all| then limit else |all|)
      && (r.truncated <==> |all| > limit)
  {
    PrefixRangeIsFilter(s.index, prefix);
  }

  // ---------------------------------------------------------------- one event

  datatype EventReply = TickerRefused | ReadError | Reply(event: Option<Json>)

  function GetEvent(c: Codec, s: Snapshot, requested: Bytes): EventReply {
    var ticker := Trim(c, requested);
    if ticker == [] then TickerRefused
    else
      match Find(s, ticker)
      case None => Reply(None)
      case Some(e) =>
        match ReadValue(c, s.file, e)
        case Some(v) => Reply(Some(v))
        case None => ReadError
  }

  /** Asking for one event scans the log for the last record of the trimmed ticker; a blank
      ticker is the only request refused. */
  lemma GetEventIsLinearScan(c: Codec, file: Bytes, mtime: nat, requested: Bytes)
    requires Load(c, file, mtime).Ok? && ShortRecords(c, file)
    ensures GetEvent(c, Load(c, file, mtime).value, requested) ==
      if Trim(c, requested) == [] then TickerRefused
      else match LastLine(c, Lines(file), Trim(c, requested))
           case Some(l) => Reply(Parse(c, l.content))
           case None => Reply(None)
  {
    hide Load;
    hide AddressesRecord;
    var s, t := Load(c, file, mtime).value, Trim(c, requested);
    LoadedFetch(c, file, mtime, t);
    LoadedFind(c, file, mtime, t);
    LastForIsLastLine(c, Lines(file), t);
    LoadSound(c, file, mtime);
    match LastLine(c, Lines(file), t) {
      case Some(l) =>
        LastLineIsRecord(c, Lines(file), t);
        SoundReads(c, s, t);
        assert l.content[..|l.content|] == l.content;
      case None =>
    }
  }
}
