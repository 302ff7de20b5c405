/** The crawl cursor (`OpenEventsIter` and the page contract of `fetch_events` in
    `src/poly_api.rs`): offset paging under a cap, restarted at an end-date boundary. */
module Crawling {
  import opened ByteStrings
  import opened Outcomes
  import opened Records
  import opened Compaction

  // ---------------------------------------------------------------- pages

  /** The events of a response, unparseable items dropped. */
  function ParsedEvents(items: seq<Json>): seq<Event> {
    if items == [] then []
    else
      var front := ParsedEvents(items[..|items| - 1]);
      match EventOf(items[|items| - 1])
      case Some(e) => front + [e]
      case None => front
  }

  method FetchEvents(items: seq<Json>) returns (events: seq<Event>)
    ensures events == ParsedEvents(items)
  {
    events := [];
    for i := 0 to |items|
      invariant events == ParsedEvents(items[..i])
    {
      assert items[..i + 1][..i] == items[..i];
      match EventOf(items[i]) {
        case Some(e) => events := events + [e];
        case None =>
      }
    }
    assert items[..|items|] == items;
  }

  /** The count the cursor advances by is the number of items sent exactly when every item
      could be parsed. */
  lemma {:induction false} NothingDroppedIff(items: seq<Json>)
    ensures |ParsedEvents(items)| <= |items|
    ensures |ParsedEvents(items)| == |items| <==> forall v :: v in items ==> EventOf(v).Some?
  {
    hide EventOf;
    if items != [] {
      var front, last := items[..|items| - 1], items[|items| - 1];
      NothingDroppedIff(front);
      assert forall v :: v in items <==> v in front || v == last by {
        assert items == front + [last];
      }
    }
  }

  // ---------------------------------------------------------------- the iterator

  datatype Config = Config(pageLimit: U32, cursorCap: U32, maxIterations: U32, version: Option<Bytes>)

  /** Gamma's hard limits as the program assumes them. */
  const DEFAULT_CONFIG := Config(100, 2000, 50, None)

  datatype Cursor = Cursor(boundary: Option<Bytes>, offset: nat, passCount: nat, finished: bool)

  const START := Cursor(None, 0, 0, false)

  datatype Query = Query(offset: nat, limit: nat, endDateMin: Option<Bytes>, version: Option<Bytes>)

  /** The remote source.  The first argument counts the calls made before, so a source may
      answer the same query differently over time. */
  type Gamma = (nat, Query) -> Page

  function Ask(gamma: Gamma, n: nat, q: Query): Page { gamma(n, q) }

  function QueryOf(cfg: Config, s: Cursor): Query {
    Query(s.offset, cfg.pageLimit, s.boundary, cfg.version)
  }

  /** Whether a call to `next` asks the source at all. */
  predicate Asks(cfg: Config, s: Cursor) {
    !s.finished && s.passCount < cfg.maxIterations
  }

  /** The cursor after a non-empty page. */
  function Advance(cfg: Config, s: Cursor, events: seq<Event>): Cursor
    requires events != []
  {
    var offset := AsU32(s.offset + AsU32(|events|));
    var last := events[|events| - 1].endDate;
    if offset < cfg.cursorCap then s.(offset := offset)
    else if last.Some? && last != s.boundary then Cursor(last, 0, s.passCount + 1, s.finished)
    else s.(offset := offset, finished := true)
  }

  /** One call of `next`, given what the source would answer. */
  function Step(cfg: Config, s: Cursor, answer: Page): (Option<Page>, Cursor) {
    if !Asks(cfg, s) then (None, s.(finished := true))
    else
      match answer
      case Failed => (Some(Failed), s.(finished := true))
      case Events(events) =>
        if events == [] then (None, s.(finished := true))
        else (Some(Events(events)), Advance(cfg, s, events))
  }

  class OpenEventsIter {
    const cfg: Config
    var boundary: Option<Bytes>
    var offset: nat
    var passCount: nat
    var finished: bool

    function At(): Cursor
      reads this
    {
      Cursor(boundary, offset, passCount, finished)
    }

    constructor (cfg: Config)
      ensures this.cfg == cfg && At() == START
    {
      this.cfg := cfg;
      boundary, offset, passCount, finished := None, 0, 0, false;
    }

    method Next(gamma: Gamma, asked: nat) returns (r: Option<Page>)
      modifies this
      ensures (r, At()) == Step(cfg, old(At()), Ask(gamma, asked, QueryOf(cfg, old(At()))))
    {
      if finished {
        return None;
      }
      if passCount >= cfg.maxIterations {
        finished := true;
        return None;
      }
      var page := Ask(gamma, asked, Query(offset, cfg.pageLimit, boundary, cfg.version));
      if page.Failed? {
        finished := true;
        return Some(Failed);
      }
      var events := page.events;
      if events == [] {
        finished := true;
        return None;
      }
      offset := AsU32(offset + AsU32(|events|));
      var lastEndDate := events[|events| - 1].endDate;
      if offset >= cfg.cursorCap {
        if lastEndDate.Some? && lastEndDate != boundary {
          boundary := lastEndDate;
          offset := 0;
          passCount := passCount + 1;
        } else {
          finished := true;
        }
      }
      r := Some(page);
    }
  }

  // ---------------------------------------------------------------- a run of calls

  /** The cursor after `n` calls of `next`, whatever the source answers. */
  function CursorAt(cfg: Config, gamma: Gamma, n: nat): Cursor
    decreases n, 0
  {
    if n == 0 then START else Step(cfg, CursorAt(cfg, gamma, n - 1), AnswerAt(cfg, gamma, n - 1)).1
  }

  /** What the source would answer to the cursor's query at call `n`. */
  function AnswerAt(cfg: Config, gamma: Gamma, n: nat): Page
    decreases n, 1
  {
    Ask(gamma, n, QueryOf(cfg, CursorAt(cfg, gamma, n)))
  }

  /** What call `n` returns. */
  function ItemAt(cfg: Config, gamma: Gamma, n: nat): Option<Page> {
    Step(cfg, CursorAt(cfg, gamma, n), AnswerAt(cfg, gamma, n)).0
  }

  /** Everything the first `n` calls return. */
  function Yielded(cfg: Config, gamma: Gamma, n: nat): seq<Page> {
    if n == 0 then []
    else Yielded(cfg, gamma, n - 1) + match ItemAt(cfg, gamma, n - 1) case Some(page) => [page] case None => []
  }

  /** The run is over by call `n`: it returns nothing. */
  predicate Ended(cfg: Config, gamma: Gamma, n: nat) {
    ItemAt(cfg, gamma, n).None?
  }

  /** Call `n` is the first to return nothing. */
  predicate EndsAt(cfg: Config, gamma: Gamma, n: nat) {
    Ended(cfg, gamma, n) && forall k :: 0 <= k < n ==> !Ended(cfg, gamma, k)
  }

  /** The items of a whole crawl. */
  predicate WholeCrawl(cfg: Config, gamma: Gamma, pages: seq<Page>) {
    EndsAt(cfg, gamma, |pages|) && pages == Yielded(cfg, gamma, |pages|)
  }

  function Span(cfg: Config): (r: nat)
    ensures r >= 1
  {
    if cfg.cursorCap > 0 then cfg.cursorCap else 1
  }

  predicate CursorOk(cfg: Config, s: Cursor) {
    s.passCount <= cfg.maxIterations && (!s.finished ==> s.offset < Span(cfg))
  }

  /** How far the cursor can still go: passes left, and then offset left. */
  function Remaining(cfg: Config, s: Cursor): (r: nat)
    requires CursorOk(cfg, s)
    ensures Asks(cfg, s) ==> r >= 1
  {
    if !Asks(cfg, s) then 0
    else
      PassCost(cfg.maxIterations - s.passCount - 1, Span(cfg));
      (cfg.maxIterations - s.passCount) * Span(cfg) - s.offset
  }

  lemma PassCost(passes: nat, span: nat)
    ensures (passes + 1) * span == passes * span + span >= span
  {}

  /** The page makes the 32-bit offset wrap to where it was or before. */
  predicate WrapsAt(cfg: Config, s: Cursor, events: seq<Event>) {
    cfg.cursorCap > 0 && AsU32(s.offset + AsU32(|events|)) <= s.offset
  }

  /** A page makes progress exactly when it does not wrap the offset; if it does, it takes the
      cursor back by less than a pass. */
  lemma ProgressIff(cfg: Config, s: Cursor, events: seq<Event>)
    requires CursorOk(cfg, s) && Asks(cfg, s) && events != []
    ensures var s' := Advance(cfg, s, events);
      && CursorOk(cfg, s')
      && (Remaining(cfg, s') < Remaining(cfg, s) <==> !WrapsAt(cfg, s, events))
      && Remaining(cfg, s') < Remaining(cfg, s) + Span(cfg)
  {
    PassCost(cfg.maxIterations - s.passCount - 1, Span(cfg));
  }

  /** One call on a sound cursor, for any answer. */
  lemma StepOk(cfg: Config, s: Cursor, answer: Page)
    requires CursorOk(cfg, s)
    ensures var (item, s') := Step(cfg, s, answer);
      && CursorOk(cfg, s')
      && (item.None? ==> s'.finished && Remaining(cfg, s') <= Remaining(cfg, s))
      && (item == Some(Failed) ==> s'.finished && Remaining(cfg, s') == 0)
      && (item.Some? && item.value.Events? ==>
            && Asks(cfg, s) && item.value == answer && answer.events != [] && s' == Advance(cfg, s, answer.events)
            && (!WrapsAt(cfg, s, answer.events) ==> Remaining(cfg, s') < Remaining(cfg, s))
            && Remaining(cfg, s') < Remaining(cfg, s) + Span(cfg))
  {
    hide Advance;
    hide Remaining;
    hide WrapsAt;
    if Asks(cfg, s) && answer.Events? && answer.events != [] {
      ProgressIff(cfg, s, answer.events);
    } else {
      NothingRemains(cfg, s.(finished := true));
    }
  }

  lemma NothingRemains(cfg: Config, s: Cursor)
    requires CursorOk(cfg, s) && s.finished
    ensures Remaining(cfg, s) == 0
  {}

  lemma {:induction false} AlwaysOk(cfg: Config, gamma: Gamma, n: nat)
    ensures CursorOk(cfg, CursorAt(cfg, gamma, n))
  {
    hide Step;
    if n > 0 {
      AlwaysOk(cfg, gamma, n - 1);
      StepOk(cfg, CursorAt(cfg, gamma, n - 1), AnswerAt(cfg, gamma, n - 1));
    }
  }

  /** Cap safety, whatever the source returns: no query of any run has an offset at or past
      the cap. */
  lemma {:induction false} QueriesBelowCap(cfg: Config, gamma: Gamma, n: nat)
    requires cfg.cursorCap > 0 && Asks(cfg, CursorAt(cfg, gamma, n))
    ensures QueryOf(cfg, CursorAt(cfg, gamma, n)).offset < cfg.cursorCap
  {
    AlwaysOk(cfg, gamma, n);
  }

  /** Every query of a run carries the iterator's page limit and version, its offset, and as
      lower bound the end date of the last event of the page that began the pass. */
  lemma {:induction false} QueriesAre(cfg: Config, gamma: Gamma, n: nat)
    ensures var q, s := QueryOf(cfg, CursorAt(cfg, gamma, n)), CursorAt(cfg, gamma, n);
      && q.limit == cfg.pageLimit && q.version == cfg.version && q.offset == s.offset
      && (q.endDateMin.None? <==> s.passCount == 0)
      && (q.endDateMin.Some? ==> exists k :: 0 <= k < n && StartsPass(cfg, gamma, k, q.endDateMin))
  {
    hide AnswerAt;
    if n > 0 {
      QueriesAre(cfg, gamma, n - 1);
      PassesStart(cfg, gamma, n - 1);
    }
  }

  /** With the program's own limits: 100 items a page, offsets below 2000, no version. */
  lemma DefaultQueries(gamma: Gamma, n: nat)
    requires Asks(DEFAULT_CONFIG, CursorAt(DEFAULT_CONFIG, gamma, n))
    ensures var q := QueryOf(DEFAULT_CONFIG, CursorAt(DEFAULT_CONFIG, gamma, n));
      q.limit == 100 && q.offset < 2000 && q.version == None
  {
    QueriesBelowCap(DEFAULT_CONFIG, gamma, n);
  }

  /** Call `n` returns a page after which a new pass begins, at the end date of the page's last
      event. */
  predicate StartsPass(cfg: Config, gamma: Gamma, n: nat, bound: Option<Bytes>) {
    var item := ItemAt(cfg, gamma, n);
    && item.Some? && item.value.Events? && item.value.events != []
    && item.value.events[|item.value.events| - 1].endDate == bound
    && CursorAt(cfg, gamma, n + 1).passCount == CursorAt(cfg, gamma, n).passCount + 1
  }

  /** A pass begins exactly where a page fills the one before up to the cap and its last event
      has an end date other than that pass's; the new pass begins at offset 0.  If the page has
      none, the run is over. */
  lemma PassesStart(cfg: Config, gamma: Gamma, n: nat)
    ensures var s, s' := CursorAt(cfg, gamma, n), CursorAt(cfg, gamma, n + 1);
      && (s'.passCount == s.passCount || s'.passCount == s.passCount + 1)
      && (s'.passCount == s.passCount ==> s'.boundary == s.boundary)
      && (s'.passCount == s.passCount + 1 ==>
            StartsPass(cfg, gamma, n, s'.boundary) && s'.boundary.Some? && s'.boundary != s.boundary && s'.offset == 0)
    ensures var s, s', item := CursorAt(cfg, gamma, n), CursorAt(cfg, gamma, n + 1), ItemAt(cfg, gamma, n);
      item.Some? && item.value.Events? ==>
        var events := item.value.events;
        && events != []
        && var full := AsU32(s.offset + AsU32(|events|)) >= cfg.cursorCap;
           var last := events[|events| - 1].endDate;
        && (s'.passCount == s.passCount + 1 <==> full && last.Some? && last != s.boundary)
        && (s'.finished <==> full && (last.None? || last == s.boundary))
        && (!full ==> s'.offset == AsU32(s.offset + AsU32(|events|)))
  {}

  // ---------------------------------------------------------------- how long a run can be

  /** Whether call `n` returns a page that wraps the offset. */
  predicate WrapsCall(cfg: Config, gamma: Gamma, n: nat) {
    var item := ItemAt(cfg, gamma, n);
    item.Some? && item.value.Events? && WrapsAt(cfg, CursorAt(cfg, gamma, n), item.value.events)
  }

  function CountWraps(cfg: Config, gamma: Gamma, n: nat): nat {
    if n == 0 then 0 else CountWraps(cfg, gamma, n - 1) + if WrapsCall(cfg, gamma, n - 1) then 1 else 0
  }

  /** Pages among the first `n` items, an error not counted. */
  function CountPages(cfg: Config, gamma: Gamma, n: nat): nat {
    if n == 0 then 0
    else CountPages(cfg, gamma, n - 1)
         + var item := ItemAt(cfg, gamma, n - 1); if item.Some? && item.value.Events? then 1 else 0
  }

  lemma OneMoreWrap(span: nat, wraps: nat)
    ensures span * (wraps + 1) == span * wraps + span
  {}

  lemma {:induction false} PagesPaidFor(cfg: Config, gamma: Gamma, n: nat)
    ensures CursorOk(cfg, CursorAt(cfg, gamma, n))
    ensures CountPages(cfg, gamma, n) + Remaining(cfg, CursorAt(cfg, gamma, n))
      <= cfg.maxIterations * Span(cfg) + Span(cfg) * CountWraps(cfg, gamma, n)
  {
    hide Step;
    hide WrapsAt;
    if n == 0 {
      assert cfg.maxIterations * Span(cfg) >= 0;
    } else {
      PagesPaidFor(cfg, gamma, n - 1);
      hide Remaining;
      StepOk(cfg, CursorAt(cfg, gamma, n - 1), AnswerAt(cfg, gamma, n - 1));
      OneMoreWrap(Span(cfg), CountWraps(cfg, gamma, n - 1));
    }
  }

  /** The bound, for every source: any number of calls return at most
      `maxIterations * max(cursorCap, 1)` pages, and as many as one pass can hold more for
      each page among them that wraps the 32-bit offset. */
  lemma {:induction false} CrawlBound(cfg: Config, gamma: Gamma, n: nat)
    ensures CountPages(cfg, gamma, n) <= cfg.maxIterations * Span(cfg) + Span(cfg) * CountWraps(cfg, gamma, n)
  {
    PagesPaidFor(cfg, gamma, n);
  }

  /** Nothing follows the end or an error. */
  lemma {:induction false} NothingAfter(cfg: Config, gamma: Gamma, m: nat, n: nat)
    requires m < n && (Ended(cfg, gamma, m) || ItemAt(cfg, gamma, m) == Some(Failed))
    ensures Ended(cfg, gamma, n) && CursorAt(cfg, gamma, n).finished
    decreases n - m
  {
    if m + 1 < n {
      NothingAfter(cfg, gamma, m, n - 1);
    }
  }

  /** Until the run ends, every call returns an item; all but the last are pages. */
  lemma {:induction false} YieldedItems(cfg: Config, gamma: Gamma, n: nat)
    requires forall k :: 0 <= k < n ==> !Ended(cfg, gamma, k)
    ensures |Yielded(cfg, gamma, n)| == n
    ensures forall k :: 0 <= k < n ==> Some(Yielded(cfg, gamma, n)[k]) == ItemAt(cfg, gamma, k)
    ensures forall k :: 0 <= k < n - 1 ==> Yielded(cfg, gamma, n)[k].Events?
    ensures CountPages(cfg, gamma, n) >= n - 1
  {
    hide Ended;
    hide ItemAt;
    if n > 0 {
      YieldedItems(cfg, gamma, n - 1);
      NotEnded(cfg, gamma, n - 1);
      if n > 1 && !Yielded(cfg, gamma, n - 1)[n - 2].Events? {
        NothingAfter(cfg, gamma, n - 2, n - 1);
        assert false;
      }
      AllPages(cfg, gamma, n - 1);
    }
  }

  lemma NotEnded(cfg: Config, gamma: Gamma, n: nat)
    ensures Ended(cfg, gamma, n) <==> ItemAt(cfg, gamma, n).None?
  {}

  lemma {:induction false} AllPages(cfg: Config, gamma: Gamma, n: nat)
    requires forall k :: 0 <= k < n ==> ItemAt(cfg, gamma, k).Some? && ItemAt(cfg, gamma, k).value.Events?
    ensures CountPages(cfg, gamma, n) == n
  {
    hide ItemAt;
    if n > 0 {
      AllPages(cfg, gamma, n - 1);
    }
  }

  /** How many calls a run with at most `wraps` wrapping pages can take. */
  function LongestRun(cfg: Config, wraps: nat): nat {
    cfg.maxIterations * Span(cfg) + Span(cfg) * wraps + 2
  }

  ghost predicate WrapsAtMost(cfg: Config, gamma: Gamma, wraps: nat) {
    forall n :: CountWraps(cfg, gamma, n) <= wraps
  }

  lemma EndsWithin(cfg: Config, gamma: Gamma, wraps: nat)
    requires WrapsAtMost(cfg, gamma, wraps)
    ensures exists n :: 0 <= n < LongestRun(cfg, wraps) && Ended(cfg, gamma, n)
  {
    hide Ended;
    hide CountPages;
    hide CountWraps;
    var n := LongestRun(cfg, wraps);
    if forall k :: 0 <= k < n ==> !Ended(cfg, gamma, k) {
      YieldedItems(cfg, gamma, n);
      CrawlBound(cfg, gamma, n);
      MoreWraps(Span(cfg), CountWraps(cfg, gamma, n), wraps);
      assert false;
    }
  }

  lemma MoreWraps(span: nat, a: nat, b: nat)
    requires a <= b
    ensures span * a <= span * b
  {}

  lemma {:induction false} WrapsStop(cfg: Config, gamma: Gamma, m: nat, n: nat)
    requires Ended(cfg, gamma, m)
    ensures CountWraps(cfg, gamma, n) <= if n <= m then n else m
  {
    hide ItemAt;
    hide Ended;
    if n > 0 {
      WrapsStop(cfg, gamma, m, n - 1);
      NotEnded(cfg, gamma, m);
      if m < n - 1 {
        NothingAfter(cfg, gamma, m, n - 1);
        NotEnded(cfg, gamma, n - 1);
      }
    }
  }

  /** Termination: a run comes to its end if and only if no more than some number of its pages
      wrap the offset; by `EndsWithin` it then does so within `LongestRun` calls. */
  lemma EndsIff(cfg: Config, gamma: Gamma)
    ensures (exists n :: Ended(cfg, gamma, n)) <==> exists w :: WrapsAtMost(cfg, gamma, w)
  {
    hide Ended;
    hide CountWraps;
    if n :| Ended(cfg, gamma, n) {
      forall k: nat ensures CountWraps(cfg, gamma, k) <= n {
        WrapsStop(cfg, gamma, n, k);
      }
      assert WrapsAtMost(cfg, gamma, n);
    }
    if w :| WrapsAtMost(cfg, gamma, w) {
      EndsWithin(cfg, gamma, w);
    }
  }

  /** A source whose every answer has 2^32 events: the length is 0 in 32 bits. */
  function Endless(e: Event): Gamma {
    (n, q) => Events(seq(U32_MODULUS, i => e))
  }

  /** On it the iterator spins: the cursor stays where it started, and every call returns a
      page. */
  lemma {:induction false} EndlessSpins(cfg: Config, e: Event, n: nat)
    requires cfg.cursorCap > 0 && cfg.maxIterations > 0
    ensures CursorAt(cfg, Endless(e), n) == START && !Ended(cfg, Endless(e), n)
  {
    if n > 0 {
      EndlessSpins(cfg, e, n - 1);
    }
    assert |AnswerAt(cfg, Endless(e), n).events| == U32_MODULUS;
  }

  /** `for page in iter`: call `next` until it returns nothing.  `wraps` bounds the pages that
      wrap the offset; no weaker condition would do (`EndsIff`). */
  method Drain(it: OpenEventsIter, gamma: Gamma, ghost wraps: nat) returns (pages: seq<Page>)
    requires it.At() == START && WrapsAtMost(it.cfg, gamma, wraps)
    modifies it
    ensures WholeCrawl(it.cfg, gamma, pages)
    ensures forall k :: 0 <= k < |pages| - 1 ==> pages[k].Events?
  {
    hide Step;
    hide CountWraps;
    pages := [];
    var more := true;
    while more
      invariant forall k :: 0 <= k < |pages| ==> !Ended(it.cfg, gamma, k)
      invariant pages == Yielded(it.cfg, gamma, |pages|)
      invariant more ==> it.At() == CursorAt(it.cfg, gamma, |pages|)
      invariant !more ==> Ended(it.cfg, gamma, |pages|)
      decreases more, LongestRun(it.cfg, wraps) - |pages|
    {
      EndsWithin(it.cfg, gamma, wraps);
      var page := it.Next(gamma, |pages|);
      if page.Some? {
        pages := pages + [page.value];
      } else {
        more := false;
      }
    }
    YieldedItems(it.cfg, gamma, |pages|);
  }
}
