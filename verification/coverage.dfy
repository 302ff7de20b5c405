/** What the crawl covers of a fixed source sorted by end date (`OpenEventsIter::next` in
    `src/poly_api.rs`), and what that means for the database refreshed from it. */
module Coverage {
  import opened ByteStrings
  import opened Outcomes
  import opened Records
  import opened Log
  import opened Database
  import opened Compaction
  import opened Crawling
  import opened History

  // ---------------------------------------------------------------- a sorted source

  /** A fixed source: the raw items in its order, the date it sorts each by, and the point in
      time it reads a bound's text as. */
  datatype Source = Source(items: seq<Json>, date: Json -> int, rank: Bytes -> int)

  function Date(src: Source, i: nat): int
    requires i < |src.items|
  {
    src.date(src.items[i])
  }

  function Rank(src: Source, text: Bytes): int { src.rank(text) }

  predicate Parses(src: Source, i: nat)
    requires i < |src.items|
  {
    EventOf(src.items[i]).Some?
  }

  function EventAt(src: Source, i: nat): Event
    requires i < |src.items| && Parses(src, i)
  {
    EventOf(src.items[i]).value
  }

  /** Sorted by date; an event's end date, if it has one, is that date in some spelling. */
  ghost predicate SortedSource(src: Source) {
    && (forall i, j :: 0 <= i < j < |src.items| ==> Date(src, i) <= Date(src, j))
    && (forall i :: 0 <= i < |src.items| && Parses(src, i) && EventAt(src, i).endDate.Some? ==>
          Rank(src, EventAt(src, i).endDate.value) == Date(src, i))
  }

  /** Every event has an end date. */
  ghost predicate Dated(src: Source) {
    forall i :: 0 <= i < |src.items| && Parses(src, i) ==> EventAt(src, i).endDate.Some?
  }

  /** A date has one spelling. */
  ghost predicate OneSpelling(src: Source) {
    forall i, j :: 0 <= i < |src.items| && 0 <= j < |src.items| && Parses(src, i) && Parses(src, j) ==>
      Date(src, i) == Date(src, j) ==> EventAt(src, i).endDate == EventAt(src, j).endDate
  }

  /** The first position from `i` on that a lower bound on the end date lets through. */
  function FirstFrom(src: Source, bound: Bytes, i: nat): (n: nat)
    requires i <= |src.items|
    ensures i <= n <= |src.items|
    ensures forall k :: i <= k < n ==> Date(src, k) < Rank(src, bound)
    ensures n < |src.items| ==> Date(src, n) >= Rank(src, bound)
    decreases |src.items| - i
  {
    if i == |src.items| || Date(src, i) >= Rank(src, bound) then i else FirstFrom(src, bound, i + 1)
  }

  /** How many items a lower bound leaves out. */
  function Skipped(src: Source, bound: Option<Bytes>): (n: nat)
    ensures n <= |src.items|
  {
    match bound
    case None => 0
    case Some(text) => FirstFrom(src, text, 0)
  }

  lemma SkippedSplits(src: Source, text: Bytes)
    requires SortedSource(src)
    ensures forall i :: 0 <= i < |src.items| ==> (i < Skipped(src, Some(text)) <==> Date(src, i) < Rank(src, text))
  {}

  /** What the source sends from a position: a contiguous run of items, of any length while
      any are left.  Items that do not parse drop out of the page. */
  ghost predicate Sends(src: Source, pos: nat, sent: nat, events: seq<Event>) {
    if pos >= |src.items| then events == [] && sent == 0
    else 0 < sent <= |src.items| - pos && events == ParsedEvents(src.items[pos..pos + sent])
  }

  ghost predicate ServesQuery(answer: Page, src: Source, pos: nat) {
    answer.Events? && exists sent :: Sends(src, pos, sent, answer.events)
  }

  /** The contract of a fixed source, query by query: asked for items of its version, a page at
      a time, it starts where the query's lower bound and offset say. */
  ghost predicate AnswersQuery(cfg: Config, answer: Page, src: Source, q: Query) {
    q.version == cfg.version && q.limit == cfg.pageLimit ==>
      ServesQuery(answer, src, Skipped(src, q.endDateMin) + q.offset)
  }

  /** It answers the queries the run asks. */
  ghost predicate Serves(cfg: Config, gamma: Gamma, src: Source) {
    forall n :: Asks(cfg, CursorAt(cfg, gamma, n)) ==>
      AnswersQuery(cfg, AnswerAt(cfg, gamma, n), src, QueryOf(cfg, CursorAt(cfg, gamma, n)))
  }

  /** The crawl asks for what it needs: its query makes the source start at the cursor. */
  lemma AsksForPosition(cfg: Config, gamma: Gamma, src: Source, n: nat)
    requires Serves(cfg, gamma, src) && Asks(cfg, CursorAt(cfg, gamma, n))
    ensures ServesQuery(AnswerAt(cfg, gamma, n), src, Position(src, CursorAt(cfg, gamma, n)))
  {
    hide ServesQuery;
    hide Skipped;
    hide CursorAt;
    hide AnswerAt;
    var q := QueryOf(cfg, CursorAt(cfg, gamma, n));
    assert AnswersQuery(cfg, AnswerAt(cfg, gamma, n), src, q);
  }

  /** Where in the source the next page starts. */
  function Position(src: Source, s: Cursor): nat {
    Skipped(src, s.boundary) + s.offset
  }

  /** A boundary is always the end date of some event of the source. */
  ghost predicate BoundaryKnown(src: Source, s: Cursor) {
    s.boundary.Some? ==> exists i :: 0 <= i < |src.items| && Parses(src, i) && EventAt(src, i).endDate == s.boundary
  }

  /** Every event among the items before `upto` is there. */
  ghost predicate Covers(events: seq<Event>, src: Source, upto: nat) {
    forall i :: 0 <= i < upto && i < |src.items| && Parses(src, i) ==> EventAt(src, i) in events
  }

  ghost predicate CoversAll(events: seq<Event>, src: Source) {
    Covers(events, src, |src.items|)
  }

  lemma {:induction false} ParsedIn(items: seq<Json>, i: nat)
    requires i < |items| && EventOf(items[i]).Some?
    ensures EventOf(items[i]).value in ParsedEvents(items)
  {
    hide EventOf;
    if i < |items| - 1 {
      ParsedIn(items[..|items| - 1], i);
    }
  }

  /** The last event of a page comes from an item no earlier than the page is long. */
  lemma {:induction false} ParsedLast(items: seq<Json>) returns (last: nat)
    requires ParsedEvents(items) != []
    ensures var events := ParsedEvents(items);
      |events| <= last + 1 <= |items| && EventOf(items[last]) == Some(events[|events| - 1])
  {
    hide EventOf;
    last := |items| - 1;
    if EventOf(items[last]).None? {
      last := ParsedLast(items[..last]);
    } else if ParsedEvents(items[..last]) != [] {
      var _ := ParsedLast(items[..last]);
    }
  }

  lemma {:induction false} ParsedCount(items: seq<Json>)
    ensures |ParsedEvents(items)| <= |items|
  {
    hide EventOf;
    if items != [] {
      ParsedCount(items[..|items| - 1]);
    }
  }

  lemma LastSent(src: Source, pos: nat, sent: nat, events: seq<Event>) returns (last: nat)
    requires Sends(src, pos, sent, events) && events != []
    ensures pos + |events| - 1 <= last < pos + sent <= |src.items|
    ensures Parses(src, last) && EventAt(src, last) == events[|events| - 1]
  {
    hide ParsedEvents;
    hide EventOf;
    var items := src.items[pos..pos + sent];
    last := ParsedLast(items);
    assert items[last] == src.items[pos + last];
    last := pos + last;
  }

  /** A page covers its own stretch of the source. */
  lemma PageCovers(src: Source, pos: nat, sent: nat, page: seq<Event>, before: seq<Event>, covered: nat)
    requires Sends(src, pos, sent, page) && pos <= covered && Covers(before, src, covered)
    ensures Covers(before + page, src, Max(covered, pos + sent))
  {
    hide ParsedEvents;
    hide EventOf;
    forall i | 0 <= i < Max(covered, pos + sent) && i < |src.items| && Parses(src, i)
      ensures EventAt(src, i) in before + page
    {
      if i < covered {
        assert EventAt(src, i) in before;
      } else {
        var items := src.items[pos..pos + sent];
        assert items[i - pos] == src.items[i];
        ParsedIn(items, i - pos);
      }
    }
  }

  /** A new pass restarts at or before the end of what the last one covered, at a boundary no
      earlier than its own. */
  lemma AdvanceRestarts(cfg: Config, src: Source, s: Cursor, events: seq<Event>, sent: nat)
    requires SortedSource(src) && events != [] && BoundaryKnown(src, s)
    requires Sends(src, Position(src, s), sent, events)
    ensures var pos, s' := Position(src, s), Advance(cfg, s, events);
      && |events| <= sent
      && BoundaryKnown(src, s')
      && Position(src, s') <= pos + sent <= |src.items|
      && (s.boundary.Some? ==> s'.boundary.Some? && Rank(src, s.boundary.value) <= Rank(src, s'.boundary.value))
  {
    hide EventOf;
    hide ParsedEvents;
    hide FirstFrom;
    var s' := Advance(cfg, s, events);
    var last := LastSent(src, Position(src, s), sent, events);
    if s'.boundary != s.boundary {
      SkippedSplits(src, s'.boundary.value);
      if s.boundary.Some? {
        SkippedSplits(src, s.boundary.value);
        var i :| 0 <= i < |src.items| && Parses(src, i) && EventAt(src, i).endDate == s.boundary;
        assert Date(src, i) <= Date(src, last);
      }
    }
  }

  /** Where a date has one spelling, a new boundary is strictly later. */
  lemma BoundaryMovesOn(cfg: Config, src: Source, s: Cursor, events: seq<Event>, sent: nat)
    requires SortedSource(src) && OneSpelling(src) && events != [] && BoundaryKnown(src, s)
    requires Sends(src, Position(src, s), sent, events)
    requires s.boundary.Some? && Advance(cfg, s, events).boundary != s.boundary
    ensures var s' := Advance(cfg, s, events);
      s'.boundary.Some? && Rank(src, s.boundary.value) < Rank(src, s'.boundary.value)
  {
    hide EventOf;
    hide ParsedEvents;
    hide FirstFrom;
    var last := LastSent(src, Position(src, s), sent, events);
    SkippedSplits(src, s.boundary.value);
    var i :| 0 <= i < |src.items| && Parses(src, i) && EventAt(src, i).endDate == s.boundary;
    assert Date(src, i) <= Date(src, last);
  }

  // ---------------------------------------------------------------- the run so far

  /** The events of the first `n` calls. */
  function Got(cfg: Config, gamma: Gamma, n: nat): seq<Event> {
    PassEvents(Yielded(cfg, gamma, n))
  }

  lemma {:induction false} PassEventsSnoc(pages: seq<Page>, page: Page)
    requires Failed !in pages && page.Events?
    ensures PassEvents(pages + [page]) == PassEvents(pages) + page.events
    ensures Failed !in pages + [page]
  {
    if pages == [] {
      assert [page][1..] == [];
    } else {
      assert pages[0] in pages && (pages + [page])[0] == pages[0];
      assert (pages + [page])[1..] == pages[1..] + [page];
      PassEventsSnoc(pages[1..], page);
    }
  }

  /** Call `n` asks and gets a page. */
  ghost predicate GetsPage(cfg: Config, gamma: Gamma, n: nat) {
    && Asks(cfg, CursorAt(cfg, gamma, n))
    && AnswerAt(cfg, gamma, n).Events? && AnswerAt(cfg, gamma, n).events != []
  }

  lemma PageTaken(cfg: Config, gamma: Gamma, n: nat)
    requires GetsPage(cfg, gamma, n) && Failed !in Yielded(cfg, gamma, n)
    ensures var events := AnswerAt(cfg, gamma, n).events;
      && CursorAt(cfg, gamma, n + 1) == Advance(cfg, CursorAt(cfg, gamma, n), events)
      && Got(cfg, gamma, n + 1) == Got(cfg, gamma, n) + events
      && Failed !in Yielded(cfg, gamma, n + 1)
  {
    hide Advance;
    PassEventsSnoc(Yielded(cfg, gamma, n), AnswerAt(cfg, gamma, n));
  }

  lemma NoPageTaken(cfg: Config, gamma: Gamma, n: nat)
    requires !GetsPage(cfg, gamma, n)
    requires Asks(cfg, CursorAt(cfg, gamma, n)) ==> AnswerAt(cfg, gamma, n).Events?
    ensures Ended(cfg, gamma, n)
    ensures CursorAt(cfg, gamma, n + 1) == CursorAt(cfg, gamma, n).(finished := true)
    ensures Yielded(cfg, gamma, n + 1) == Yielded(cfg, gamma, n)
  {}

  /** What holds after any number of calls: everything before `covered` has been yielded, and
      the cursor stands at or before it. */
  ghost predicate CoveredTo(cfg: Config, gamma: Gamma, src: Source, n: nat, covered: nat) {
    var s := CursorAt(cfg, gamma, n);
    && Failed !in Yielded(cfg, gamma, n)
    && Covers(Got(cfg, gamma, n), src, covered)
    && Position(src, s) <= covered
    && BoundaryKnown(src, s)
  }

  lemma CoversOneMore(cfg: Config, gamma: Gamma, src: Source, n: nat, covered: nat, sent: nat)
    requires SortedSource(src)
    requires CoveredTo(cfg, gamma, src, n, covered) && GetsPage(cfg, gamma, n)
    requires Sends(src, Position(src, CursorAt(cfg, gamma, n)), sent, AnswerAt(cfg, gamma, n).events)
    ensures CoveredTo(cfg, gamma, src, n + 1, Max(covered, Position(src, CursorAt(cfg, gamma, n)) + sent))
  {
    hide Sends;
    hide SortedSource;
    hide Covers;
    hide BoundaryKnown;
    hide Advance;
    hide AnswerAt;
    hide CursorAt;
    hide Yielded;
    hide Skipped;
    hide PassEvents;
    var s, answer := CursorAt(cfg, gamma, n), AnswerAt(cfg, gamma, n);
    PageTaken(cfg, gamma, n);
    AdvanceRestarts(cfg, src, s, answer.events, sent);
    PageCovers(src, Position(src, s), sent, answer.events, Got(cfg, gamma, n), covered);
  }

  lemma StillCovered(cfg: Config, gamma: Gamma, src: Source, n: nat, covered: nat)
    requires CoveredTo(cfg, gamma, src, n, covered) && !GetsPage(cfg, gamma, n)
    requires Asks(cfg, CursorAt(cfg, gamma, n)) ==> AnswerAt(cfg, gamma, n).Events?
    ensures CoveredTo(cfg, gamma, src, n + 1, covered)
  {
    hide CursorAt;
    hide Yielded;
    hide Covers;
    hide BoundaryKnown;
    hide PassEvents;
    NoPageTaken(cfg, gamma, n);
    SameBoundary(src, CursorAt(cfg, gamma, n));
  }

  lemma SameBoundary(src: Source, s: Cursor)
    ensures BoundaryKnown(src, s.(finished := true)) <==> BoundaryKnown(src, s)
  {}

  lemma AskedIsServed(cfg: Config, gamma: Gamma, src: Source, n: nat) returns (sent: nat)
    requires Serves(cfg, gamma, src) && Asks(cfg, CursorAt(cfg, gamma, n))
    ensures AnswerAt(cfg, gamma, n).Events?
    ensures Sends(src, Position(src, CursorAt(cfg, gamma, n)), sent, AnswerAt(cfg, gamma, n).events)
  {
    hide Sends;
    hide CursorAt;
    hide AnswerAt;
    hide Position;
    AsksForPosition(cfg, gamma, src, n);
    sent :| Sends(src, Position(src, CursorAt(cfg, gamma, n)), sent, AnswerAt(cfg, gamma, n).events);
  }

  lemma CoversNext(cfg: Config, gamma: Gamma, src: Source, n: nat, covered: nat) returns (covered': nat)
    requires SortedSource(src) && Serves(cfg, gamma, src)
    requires CoveredTo(cfg, gamma, src, n, covered)
    ensures CoveredTo(cfg, gamma, src, n + 1, covered')
  {
    hide CoveredTo;
    hide SortedSource;
    hide Serves;
    hide Sends;
    hide CursorAt;
    hide AnswerAt;
    hide Position;
    var sent := 0;
    if Asks(cfg, CursorAt(cfg, gamma, n)) {
      sent := AskedIsServed(cfg, gamma, src, n);
    }
    if GetsPage(cfg, gamma, n) {
      CoversOneMore(cfg, gamma, src, n, covered, sent);
      covered' := Max(covered, Position(src, CursorAt(cfg, gamma, n)) + sent);
    } else {
      StillCovered(cfg, gamma, src, n, covered);
      covered' := covered;
    }
  }

  lemma StartsCovered(cfg: Config, gamma: Gamma, src: Source)
    ensures CoveredTo(cfg, gamma, src, 0, 0)
  {}

  /** After any number of calls some prefix of the source is covered, and the cursor stands
      within it. */
  lemma {:induction false} PrefixCovered(cfg: Config, gamma: Gamma, src: Source, n: nat) returns (covered: nat)
    requires SortedSource(src) && Serves(cfg, gamma, src)
    ensures CoveredTo(cfg, gamma, src, n, covered)
  {
    hide CoveredTo;
    hide SortedSource;
    hide Serves;
    if n == 0 {
      StartsCovered(cfg, gamma, src);
      covered := 0;
    } else {
      covered := PrefixCovered(cfg, gamma, src, n - 1);
      covered := CoversNext(cfg, gamma, src, n - 1, covered);
    }
  }

  // ---------------------------------------------------------------- soundness

  /** The run stops on an empty page. */
  ghost predicate StopsOnEmptyPage(cfg: Config, gamma: Gamma, n: nat) {
    Asks(cfg, CursorAt(cfg, gamma, n)) && AnswerAt(cfg, gamma, n) == Events([])
  }

  /** No event the run has not yielded is left from where the cursor stands. */
  ghost predicate NothingMissed(cfg: Config, gamma: Gamma, src: Source, n: nat) {
    forall i :: Position(src, CursorAt(cfg, gamma, n)) <= i < |src.items| && Parses(src, i) ==>
      EventAt(src, i) in Got(cfg, gamma, n)
  }

  /** Soundness: when the iterator stops on an empty page of a fixed sorted source, every event
      has been yielded, if and only if the page was not empty merely because none of its items
      parsed while unyielded events follow. */
  lemma CrawlSoundIff(cfg: Config, gamma: Gamma, src: Source, n: nat)
    requires SortedSource(src) && Serves(cfg, gamma, src)
    ensures CoversAll(Got(cfg, gamma, n), src) <==> NothingMissed(cfg, gamma, src, n)
  {
    hide EventOf;
    hide Got;
    hide Skipped;
    hide SortedSource;
    hide Serves;
    hide CursorAt;
    var covered := PrefixCovered(cfg, gamma, src, n);
    assert Covers(Got(cfg, gamma, n), src, covered);
  }

  /** Where every item parses, only the end of the source sends an empty page. */
  lemma EmptyIsEnd(src: Source, pos: nat, sent: nat)
    requires Sends(src, pos, sent, []) && forall i :: 0 <= i < |src.items| ==> Parses(src, i)
    ensures pos >= |src.items|
  {
    hide EventOf;
    if pos < |src.items| {
      var items := src.items[pos..pos + sent];
      assert items[0] == src.items[pos] && Parses(src, pos);
      ParsedIn(items, 0);
    }
  }

  /** Where every item parses, stopping on an empty page means having yielded everything. */
  lemma CrawlSound(cfg: Config, gamma: Gamma, src: Source, n: nat)
    requires SortedSource(src) && Serves(cfg, gamma, src)
    requires StopsOnEmptyPage(cfg, gamma, n) && forall i :: 0 <= i < |src.items| ==> Parses(src, i)
    ensures CoversAll(Got(cfg, gamma, n), src)
  {
    hide Got;
    hide SortedSource;
    hide Sends;
    hide Skipped;
    hide CursorAt;
    hide EventOf;
    var sent := AskedIsServed(cfg, gamma, src, n);
    EmptyIsEnd(src, Position(src, CursorAt(cfg, gamma, n)), sent);
    CrawlSoundIff(cfg, gamma, src, n);
  }

  /** Two items, the first of which is no event, sent one to a page. */
  function BarrenFirst(good: Event, date: int, rank: Bytes -> int): Source {
    Source([Null, EventJson(good)], v => date, rank)
  }

  function OneByOne(src: Source): Gamma {
    (n: nat, q: Query) => Events(ParsedEvents(if q.offset < |src.items| then [src.items[q.offset]] else []))
  }

  /** On it the crawl is over at the first call, as if at the end of the source, and the good
      event is never yielded. */
  lemma BarrenPageLoses(cfg: Config, good: Event, date: int, rank: Bytes -> int)
    requires cfg.maxIterations > 0
    requires good.endDate.Some? && rank(good.endDate.value) == date
    requires TICKER !in good.extra && END_DATE !in good.extra
    ensures var src := BarrenFirst(good, date, rank);
      && SortedSource(src) && Parses(src, 1) && EventAt(src, 1) == good
      && Serves(cfg, OneByOne(src), src)
      && StopsOnEmptyPage(cfg, OneByOne(src), 0)
      && forall n :: Yielded(cfg, OneByOne(src), n) == []
  {
    var src := BarrenFirst(good, date, rank);
    EventRoundTrip(good);
    hide EventJson;
    assert [Null][..0] == [];
    assert ParsedEvents([Null]) == [];
    assert src.items[0..1] == [Null];
    assert Sends(src, 0, 1, []);
    forall n ensures Yielded(cfg, OneByOne(src), n) == [] && (n > 0 ==> CursorAt(cfg, OneByOne(src), n).finished) {
      SilentRun(cfg, OneByOne(src), n);
    }
  }

  lemma {:induction false} SilentRun(cfg: Config, gamma: Gamma, n: nat)
    requires Ended(cfg, gamma, 0)
    ensures Yielded(cfg, gamma, n) == [] && (n > 0 ==> CursorAt(cfg, gamma, n).finished)
  {
    if n > 0 {
      SilentRun(cfg, gamma, n - 1);
      if n > 1 {
        NothingAfter(cfg, gamma, 0, n - 1);
      }
    }
  }

  // ---------------------------------------------------------------- completeness

  /** At most `m` items share an end date. */
  ghost predicate AtMostShare(src: Source, m: nat) {
    forall i :: 0 <= i < |src.items| - m ==> Date(src, i) < Date(src, i + m)
  }

  /** A full pass under the sharing bound always moves the boundary, by at least the cap less
      the share. */
  lemma FullPassMoves(cfg: Config, src: Source, s: Cursor, events: seq<Event>, sent: nat, m: nat)
    requires SortedSource(src) && Dated(src) && AtMostShare(src, m) && m < cfg.cursorCap
    requires events != []
    requires Sends(src, Position(src, s), sent, events)
    requires AsU32(s.offset + AsU32(|events|)) >= cfg.cursorCap && !s.finished
    ensures var s' := Advance(cfg, s, events);
      && !s'.finished && s'.passCount == s.passCount + 1 && s'.offset == 0
      && Skipped(src, s'.boundary) >= Skipped(src, s.boundary) + cfg.cursorCap - m
  {
    hide EventOf;
    hide ParsedEvents;
    hide FirstFrom;
    var last := LastSent(src, Position(src, s), sent, events);
    var end := EventAt(src, last).endDate.value;
    var first := Skipped(src, s.boundary);
    SkippedSplits(src, end);
    assert first + cfg.cursorCap - 1 - m <= last - m;
    assert Date(src, last - m) < Date(src, last - m + m);
    if s.boundary.Some? {
      SkippedSplits(src, s.boundary.value);
    }
  }

  lemma OnePassMore(passes: nat, gain: nat)
    ensures (passes + 1) * gain == passes * gain + gain
  {}

  /** Every pass starts far enough along the source; when passes run out, the prefix already
      covered is the whole source. */
  ghost predicate OnSchedule(cfg: Config, src: Source, s: Cursor, m: nat, covered: nat) {
    && m < cfg.cursorCap
    && Skipped(src, s.boundary) >= s.passCount * (cfg.cursorCap - m)
    && (s.passCount >= cfg.maxIterations ==> covered >= |src.items|)
  }

  ghost predicate WithinBudget(cfg: Config, total: nat, m: nat) {
    m < cfg.cursorCap && cfg.maxIterations >= 1
    && total <= (cfg.maxIterations - 1) * (cfg.cursorCap - m) + cfg.cursorCap
  }

  function Max(a: nat, b: nat): nat {
    if a < b then b else a
  }

  lemma ScheduleKept(cfg: Config, src: Source, s: Cursor, events: seq<Event>, sent: nat, m: nat, covered: nat)
    requires SortedSource(src) && Dated(src) && AtMostShare(src, m) && WithinBudget(cfg, |src.items|, m)
    requires events != []
    requires Asks(cfg, s) && BoundaryKnown(src, s)
    requires Sends(src, Position(src, s), sent, events)
    requires OnSchedule(cfg, src, s, m, covered)
    ensures OnSchedule(cfg, src, Advance(cfg, s, events), m, Max(covered, Position(src, s) + sent))
    ensures !Advance(cfg, s, events).finished
  {
    hide SortedSource;
    hide AtMostShare;
    hide Dated;
    hide Sends;
    hide Skipped;
    hide BoundaryKnown;
    AdvanceRestarts(cfg, src, s, events, sent);
    if AsU32(s.offset + AsU32(|events|)) >= cfg.cursorCap {
      FullPassMoves(cfg, src, s, events, sent, m);
      OnePassMore(s.passCount, cfg.cursorCap - m);
    }
  }

  /** The state of a run that has met no empty page yet. */
  ghost predicate RunsOn(cfg: Config, gamma: Gamma, src: Source, n: nat, m: nat, covered: nat) {
    && CoveredTo(cfg, gamma, src, n, covered)
    && OnSchedule(cfg, src, CursorAt(cfg, gamma, n), m, covered)
    && !CursorAt(cfg, gamma, n).finished
  }

  lemma RunsOneMore(cfg: Config, gamma: Gamma, src: Source, n: nat, m: nat, covered: nat) returns (covered': nat)
    requires SortedSource(src) && Serves(cfg, gamma, src)
    requires Dated(src) && AtMostShare(src, m) && WithinBudget(cfg, |src.items|, m)
    requires RunsOn(cfg, gamma, src, n, m, covered) && GetsPage(cfg, gamma, n)
    ensures RunsOn(cfg, gamma, src, n + 1, m, covered')
  {
    hide SortedSource;
    hide AtMostShare;
    hide Dated;
    hide WithinBudget;
    hide OnSchedule;
    hide Serves;
    hide Sends;
    hide Skipped;
    hide Covers;
    hide BoundaryKnown;
    hide Advance;
    hide Got;
    hide CursorAt;
    hide AnswerAt;
    hide Yielded;
    var s, answer := CursorAt(cfg, gamma, n), AnswerAt(cfg, gamma, n);
    var sent := AskedIsServed(cfg, gamma, src, n);
    covered' := Max(covered, Position(src, s) + sent);
    CoversOneMore(cfg, gamma, src, n, covered, sent);
    PageTaken(cfg, gamma, n);
    ScheduleKept(cfg, src, s, answer.events, sent, m, covered);
  }

  lemma StartsRunning(cfg: Config, gamma: Gamma, src: Source, m: nat)
    requires WithinBudget(cfg, |src.items|, m)
    ensures RunsOn(cfg, gamma, src, 0, m, 0)
  {
    assert 0 * (cfg.cursorCap - m) == 0;
  }

  /** A call that returns something either got a page or an error. */
  lemma GoesOn(cfg: Config, gamma: Gamma, src: Source, n: nat)
    requires Serves(cfg, gamma, src) && !Ended(cfg, gamma, n)
    ensures GetsPage(cfg, gamma, n)
  {
    hide Serves;
    hide CursorAt;
    hide AnswerAt;
    hide Advance;
    if Asks(cfg, CursorAt(cfg, gamma, n)) {
      var _ := AskedIsServed(cfg, gamma, src, n);
    }
  }

  lemma {:induction false} RunsUntilEnd(cfg: Config, gamma: Gamma, src: Source, n: nat, m: nat) returns (covered: nat)
    requires SortedSource(src) && Serves(cfg, gamma, src)
    requires Dated(src) && AtMostShare(src, m) && WithinBudget(cfg, |src.items|, m)
    requires forall k :: 0 <= k < n ==> !Ended(cfg, gamma, k)
    ensures RunsOn(cfg, gamma, src, n, m, covered)
  {
    hide SortedSource;
    hide AtMostShare;
    hide Dated;
    hide WithinBudget;
    hide RunsOn;
    hide Serves;
    hide Ended;
    if n == 0 {
      StartsRunning(cfg, gamma, src, m);
      covered := 0;
    } else {
      covered := RunsUntilEnd(cfg, gamma, src, n - 1, m);
      GoesOn(cfg, gamma, src, n - 1);
      covered := RunsOneMore(cfg, gamma, src, n - 1, m, covered);
    }
  }

  /** Completeness: take a source of at most `(maxIterations - 1) * (cursorCap - m) + cursorCap`
      items, no more than `m < cursorCap` of them sharing an end date.  The whole crawl of it
      meets no error, and it yields every event if and only if it did not stop on a page of
      unparseable items with an unyielded event behind it. */
  lemma {:induction false} CrawlComplete(cfg: Config, gamma: Gamma, src: Source, m: nat, n: nat)
    requires SortedSource(src) && Serves(cfg, gamma, src)
    requires Dated(src) && AtMostShare(src, m) && WithinBudget(cfg, |src.items|, m)
    requires EndsAt(cfg, gamma, n)
    ensures Failed !in Yielded(cfg, gamma, n)
    ensures CoversAll(Got(cfg, gamma, n), src) <==>
      (StopsOnEmptyPage(cfg, gamma, n) ==> NothingMissed(cfg, gamma, src, n))
  {
    hide SortedSource;
    hide AtMostShare;
    hide Dated;
    hide WithinBudget;
    hide Serves;
    hide Sends;
    hide Skipped;
    hide CursorAt;
    hide NothingMissed;
    var covered := RunsUntilEnd(cfg, gamma, src, n, m);
    CrawlSoundIff(cfg, gamma, src, n);
    hide Got;
    if Asks(cfg, CursorAt(cfg, gamma, n)) {
      var _ := AskedIsServed(cfg, gamma, src, n);
    }
  }

  /** With the program's own limits: up to 49 * (2000 - m) + 2000 items. */
  lemma DefaultCrawlComplete(gamma: Gamma, src: Source, m: nat, n: nat)
    requires SortedSource(src) && Serves(DEFAULT_CONFIG, gamma, src)
    requires Dated(src) && AtMostShare(src, m) && m < 2000 && |src.items| <= 49 * (2000 - m) + 2000
    requires EndsAt(DEFAULT_CONFIG, gamma, n)
    requires forall i :: 0 <= i < |src.items| ==> Parses(src, i)
    ensures CoversAll(Got(DEFAULT_CONFIG, gamma, n), src)
  {
    hide SortedSource;
    hide AtMostShare;
    hide Dated;
    hide Sends;
    hide Skipped;
    hide CursorAt;
    hide Got;
    CrawlComplete(DEFAULT_CONFIG, gamma, src, m, n);
    if StopsOnEmptyPage(DEFAULT_CONFIG, gamma, n) {
      CrawlSound(DEFAULT_CONFIG, gamma, src, n);
    }
  }

  // ---------------------------------------------------------------- offsets within 32 bits

  /** No answer to a query the run asks takes the offset past 32 bits. */
  ghost predicate Moderate(cfg: Config, gamma: Gamma) {
    forall n :: Asks(cfg, CursorAt(cfg, gamma, n)) ==> ModerateAnswer(AnswerAt(cfg, gamma, n), CursorAt(cfg, gamma, n))
  }

  predicate ModerateAnswer(answer: Page, s: Cursor) {
    answer.Events? ==> s.offset + |answer.events| < U32_MODULUS
  }

  lemma {:induction false} ModerateNeverWraps(cfg: Config, gamma: Gamma, n: nat)
    requires Moderate(cfg, gamma)
    ensures CountWraps(cfg, gamma, n) == 0
  {
    hide CursorAt;
    hide AnswerAt;
    hide Advance;
    if n > 0 {
      ModerateNeverWraps(cfg, gamma, n - 1);
      if Asks(cfg, CursorAt(cfg, gamma, n - 1)) {
        assert ModerateAnswer(AnswerAt(cfg, gamma, n - 1), CursorAt(cfg, gamma, n - 1));
      }
    }
  }

  /** So such a crawl comes to its end, within `maxIterations * max(cursorCap, 1) + 2` calls. */
  lemma ModerateCrawlEnds(cfg: Config, gamma: Gamma)
    requires Moderate(cfg, gamma)
    ensures exists n :: 0 <= n < LongestRun(cfg, 0) && Ended(cfg, gamma, n)
  {
    hide Moderate;
    hide Ended;
    forall n: nat ensures CountWraps(cfg, gamma, n) <= 0 {
      ModerateNeverWraps(cfg, gamma, n);
    }
    EndsWithin(cfg, gamma, 0);
  }

  // ---------------------------------------------------------------- from the source to the client

  lemma {:induction false} LastCrawledFinds(c: Codec, events: seq<Event>, e: Event)
    requires e in events
    ensures LastCrawled(c, events, Trim(c, e.ticker)).Some?
  {
    if e != events[|events| - 1] {
      LastCrawledFinds(c, events[..|events| - 1], e);
    }
  }

  /** End to end: after a cycle, initial or not, either of whose passes crawled a source within
      the bound to its end, every event of that source with a non-blank ticker is served under
      that ticker. */
  lemma {:induction false} SourceIsServed(c: Codec, cycle: Cycle, prev: Option<Snapshot>, cfg: Config, gamma: Gamma,
                                          src: Source, m: nat, pages: seq<Page>, i: nat)
    requires PrintableCycle(c, cycle) && ShortCycle(c, cycle)
    requires prev.Some? ==> Sound(c, prev.value)
    requires SortedSource(src) && Serves(cfg, gamma, src)
    requires Dated(src) && AtMostShare(src, m) && WithinBudget(cfg, |src.items|, m)
    requires WholeCrawl(cfg, gamma, pages)
    requires StopsOnEmptyPage(cfg, gamma, |pages|) ==> NothingMissed(cfg, gamma, src, |pages|)
    requires cycle.crawl.v1 == pages || (cycle.crawl.v2 == Some(pages) && !PassFails(cycle.crawl.v1))
    requires i < |src.items| && Parses(src, i) && Trim(c, EventAt(src, i).ticker) != []
    ensures Compact(c, cycle, prev).Ok?
    ensures var t := Trim(c, EventAt(src, i).ticker);
      exists f :: f in CrawlEvents(cycle.crawl) && Trim(c, f.ticker) == t
        && Fetch(Compact(c, cycle, prev).value, t) == Some(Show(c, EventJson(f)))
  {
    hide Serves;
    hide SortedSource;
    hide AtMostShare;
    hide Dated;
    hide StopsOnEmptyPage;
    hide NothingMissed;
    hide EventOf;
    hide Yielded;
    hide PassEvents;
    CrawlComplete(cfg, gamma, src, m, |pages|);
    assert EventAt(src, i) in PassEvents(pages);
    CrawledIsServed(c, cycle, prev, EventAt(src, i));
  }

  lemma CrawledIsServed(c: Codec, cycle: Cycle, prev: Option<Snapshot>, e: Event)
    requires PrintableCycle(c, cycle) && ShortCycle(c, cycle)
    requires prev.Some? ==> Sound(c, prev.value)
    requires !PassFails(cycle.crawl.v1) && e in CrawlEvents(cycle.crawl) && Trim(c, e.ticker) != []
    ensures Compact(c, cycle, prev).Ok?
    ensures var t := Trim(c, e.ticker);
      exists f :: f in CrawlEvents(cycle.crawl) && Trim(c, f.ticker) == t
        && Fetch(Compact(c, cycle, prev).value, t) == Some(Show(c, EventJson(f)))
  {
    hide Compact;
    hide Sound;
    hide Fetch;
    match prev {
      case Some(s) => CompactSucceeds(c, cycle, s);
      case None => InitialSucceeds(c, cycle);
    }
    RefreshedRecord(c, cycle, prev, Trim(c, e.ticker));
    LastCrawledFinds(c, CrawlEvents(cycle.crawl), e);
    LastCrawledIn(c, CrawlEvents(cycle.crawl), Trim(c, e.ticker));
  }
}
