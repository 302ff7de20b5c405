/** How far the compacted log is from holding each ticker once (`full_crawl_and_compact` in
    `src/refresh.rs`): the index is deduplicated, the file is not. */
module Superseded {
  import opened ByteStrings
  import opened Outcomes
  import opened Records
  import opened Sorting
  import opened Log
  import opened Database
  import opened Compaction

  predicate Distinct(s: seq<IndexEntry>) {
    forall i, j :: 0 <= i < j < |s| ==> s[i].ticker != s[j].ticker
  }

  lemma {:induction false} KeepLastShrinks(s: seq<IndexEntry>)
    ensures |KeepLast(s)| <= |s|
    ensures |KeepLast(s)| == |s| ==> KeepLast(s) == s
  {
    if s != [] {
      KeepLastShrinks(s[..|s| - 1]);
      assert s == s[..|s| - 1] + [s[|s| - 1]];
    }
  }

  lemma {:induction false} KeepLastKeepsStrict(s: seq<IndexEntry>)
    requires StrictlySorted(s)
    ensures KeepLast(s) == s
  {
    if s != [] {
      var front, last := s[..|s| - 1], s[|s| - 1];
      KeepLastKeepsStrict(front);
      if front != [] {
        LessTrichotomy(front[|front| - 1].ticker, last.ticker);
      }
      assert s == front + [last];
    }
  }

  lemma {:induction false} DistinctIsUntied(s: seq<IndexEntry>, x: IndexEntry)
    requires Distinct(s)
    ensures |TiedWith(TickerLess, s, x)| <= 1
  {
    if s != [] {
      var front, last := s[..|s| - 1], s[|s| - 1];
      DistinctIsUntied(front, x);
      var tied := TiedWith(TickerLess, front, x);
      if tied != [] && Tied(TickerLess, last, x) {
        TiedIn(TickerLess, front, x);
        assert tied[0] in tied && tied[0] in front;
        LessTrichotomy(tied[0].ticker, x.ticker);
        LessTrichotomy(last.ticker, x.ticker);
        assert false;
      }
    }
  }

  lemma StrictIsDistinct(raw: seq<IndexEntry>)
    requires StrictlySorted(StableSort(TickerLess, raw))
    ensures Distinct(raw)
  {
    hide StableSort;
    TickerLessIsStrictWeak();
    StableSortCorrect(TickerLess, raw);
    forall i, j | 0 <= i < j < |raw| ensures raw[i].ticker != raw[j].ticker {
      if raw[i].ticker == raw[j].ticker {
        LessIrreflexive(raw[i].ticker);
        TwoTied(raw, i, j, raw[i]);
        StrictlySortedTied(StableSort(TickerLess, raw), raw[i]);
      }
    }
  }

  lemma DistinctIsStrict(raw: seq<IndexEntry>)
    requires Distinct(raw)
    ensures StrictlySorted(StableSort(TickerLess, raw))
  {
    hide StableSort;
    TickerLessIsStrictWeak();
    StableSortCorrect(TickerLess, raw);
    forall x ensures |TiedWith(TickerLess, StableSort(TickerLess, raw), x)| <= 1 {
      DistinctIsUntied(raw, x);
    }
    UntiedIsStrict(StableSort(TickerLess, raw));
  }

  /** The index is as long as the list of raw entries exactly when no ticker repeats there. */
  lemma IndexDropsNothingIff(raw: seq<IndexEntry>)
    ensures |BuildIndex(raw)| <= |raw|
    ensures |BuildIndex(raw)| == |raw| <==> Distinct(raw)
  {
    var sorted := StableSort(TickerLess, raw);
    TickerLessIsStrictWeak();
    StableSortCorrect(TickerLess, raw);
    SameElements(sorted, raw);
    KeepLastShrinks(sorted);
    if Distinct(raw) {
      DistinctIsStrict(raw);
      KeepLastKeepsStrict(sorted);
    } else if |BuildIndex(raw)| == |raw| {
      KeepLastSorted(sorted);
      StrictIsDistinct(raw);
    }
  }

  // ---------------------------------------------------------------- the written log

  /** The tickers of the crawl's records, in the order crawled. */
  function CrawledTickers(c: Codec, events: seq<Event>): seq<Bytes> {
    if events == [] then []
    else
      var ticker := Trim(c, events[|events| - 1].ticker);
      CrawledTickers(c, events[..|events| - 1]) + (if ticker == [] then [] else [ticker])
  }

  predicate NoRepeats(ts: seq<Bytes>) {
    forall i, j :: 0 <= i < j < |ts| ==> ts[i] != ts[j]
  }

  lemma {:induction false} WrittenTickers(c: Codec, d: Draft, events: seq<Event>)
    requires d.entries == []
    ensures var entries, ts := WriteEvents(c, d, events).entries, CrawledTickers(c, events);
      |entries| == |ts| && forall i :: 0 <= i < |ts| ==> entries[i].ticker == ts[i]
  {
    if events != [] {
      WrittenTickers(c, d, events[..|events| - 1]);
    }
  }

  lemma DistinctTogether(raw: seq<IndexEntry>, carried: seq<IndexEntry>)
    requires StrictlySorted(carried)
    requires forall e :: e in carried ==> LastFor(raw, e.ticker).None?
    ensures Distinct(raw + carried) <==> Distinct(raw)
  {
    var all := raw + carried;
    if Distinct(all) {
      forall i, j | 0 <= i < j < |raw| ensures raw[i].ticker != raw[j].ticker {
        assert all[i] == raw[i] && all[j] == raw[j];
      }
    }
    forall i, j | 0 <= i < |raw| && 0 <= j < |carried| ensures raw[i].ticker != carried[j].ticker {
      assert carried[j] in carried && raw[i] in raw;
    }
    forall i, j | 0 <= i < j < |carried| ensures carried[i].ticker != carried[j].ticker {
      LessTrichotomy(carried[i].ticker, carried[j].ticker);
    }
  }

  /** The entries a cycle carries over; the initial crawl has none to carry. */
  function CarriedOver(c: Codec, cycle: Cycle, prev: Option<Snapshot>): seq<IndexEntry> {
    match prev
    case Some(s) => Carry(c, cycle, s).entries
    case None => []
  }

  /** What the new log holds, line by line: every crawled record, then the carried ones. */
  lemma LogHolds(c: Codec, cycle: Cycle, prev: Option<Snapshot>)
    requires PrintableCycle(c, cycle) && (prev.Some? ==> Sound(c, prev.value)) && Compact(c, cycle, prev).Ok?
    ensures var made := Compact(c, cycle, prev).value;
      var raw := Crawled(c, cycle).entries + CarriedOver(c, cycle, prev);
      Entries(c, Lines(made.file)) == raw && made.index == BuildIndex(raw)
  {
    hide Sound;
    hide Crawled;
    hide CarryOld;
    hide Readable;
    hide Utf8;
    hide BuildIndex;
    hide StableSort;
    hide Lines;
    var d := Crawled(c, cycle);
    CompactAccurate(c, cycle);
    match prev {
      case Some(s) =>
        CarryOldAccurate(c, d.bytes, d.entries, Latest(c, cycle), s, cycle.now, |s.index|, cycle.start);
      case None =>
        assert d.entries + [] == d.entries;
    }
    ReloadAgreement(c, cycle, prev, 0);
  }

  lemma CarriedIsApart(c: Codec, cycle: Cycle, prev: Option<Snapshot>)
    requires prev.Some? ==> Sound(c, prev.value)
    ensures var raw, carried := Crawled(c, cycle).entries, CarriedOver(c, cycle, prev);
      StrictlySorted(carried) && forall e :: e in carried ==> LastFor(raw, e.ticker).None?
  {
    hide AddressesRecord;
    hide CarryOld;
    hide Crawled;
    if prev.Some? {
      CarriedEntries(c, Crawled(c, cycle).bytes, Latest(c, cycle), prev.value, cycle.now, |prev.value.index|);
      BuildIndexCorrect(Crawled(c, cycle).entries);
    }
  }

  lemma CrawledDistinctIff(c: Codec, cycle: Cycle)
    ensures Distinct(Crawled(c, cycle).entries) <==> NoRepeats(CrawledTickers(c, CrawlEvents(cycle.crawl)))
  {
    hide WriteEvents;
    hide CrawledTickers;
    WrittenTickers(c, MetaDraft(c, cycle.start), CrawlEvents(cycle.crawl));
  }

  /** Superseded duplicates stay in the file: it holds each ticker once exactly when the crawl
      filed no two events under one ticker. */
  lemma LogHoldsEachTickerOnceIff(c: Codec, cycle: Cycle, prev: Option<Snapshot>)
    requires PrintableCycle(c, cycle) && (prev.Some? ==> Sound(c, prev.value)) && Compact(c, cycle, prev).Ok?
    ensures var made := Compact(c, cycle, prev).value; |made.index| <= |Entries(c, Lines(made.file))|
    ensures var made := Compact(c, cycle, prev).value;
      |Entries(c, Lines(made.file))| == |made.index| <==> NoRepeats(CrawledTickers(c, CrawlEvents(cycle.crawl)))
  {
    hide Sound;
    hide Compact;
    hide CarriedOver;
    hide Crawled;
    hide Distinct;
    hide NoRepeats;
    hide StrictlySorted;
    hide BuildIndex;
    var raw, carried := Crawled(c, cycle).entries, CarriedOver(c, cycle, prev);
    LogHolds(c, cycle, prev);
    CarriedIsApart(c, cycle, prev);
    IndexDropsNothingIff(raw + carried);
    DistinctTogether(raw, carried);
    CrawledDistinctIff(c, cycle);
  }

  /** A crawl that fails the promise: one event listed twice on one page. */
  lemma DuplicateStaysInLog(c: Codec, e: Event, start: nat, now: int, prev: Option<Snapshot>)
    requires var cycle := Cycle(Crawl([Events([e, e])], None), start, now);
      && PrintableCycle(c, cycle) && (prev.Some? ==> Sound(c, prev.value)) && Compact(c, cycle, prev).Ok?
    requires Trim(c, e.ticker) != []
    ensures var made := Compact(c, Cycle(Crawl([Events([e, e])], None), start, now), prev).value;
      |Entries(c, Lines(made.file))| > |made.index|
  {
    hide Compact;
    hide Sound;
    hide PrintableCycle;
    var cycle := Cycle(Crawl([Events([e, e])], None), start, now);
    LogHoldsEachTickerOnceIff(c, cycle, prev);
    TwiceCrawled(c, e);
  }

  lemma OnePage(events: seq<Event>)
    ensures CrawlEvents(Crawl([Events(events)], None)) == events
  {
    assert [Events(events)][1..] == [];
    assert PassEvents([Events(events)]) == events + [];
  }

  lemma TwiceCrawled(c: Codec, e: Event)
    requires Trim(c, e.ticker) != []
    ensures !NoRepeats(CrawledTickers(c, CrawlEvents(Crawl([Events([e, e])], None))))
  {
    hide CrawlEvents;
    OnePage([e, e]);
    var t := Trim(c, e.ticker);
    assert [e, e][..1] == [e] && [e][..0] == [];
    assert CrawledTickers(c, [e]) == [t];
    var ts := CrawledTickers(c, [e, e]);
    assert ts == [t, t];
    assert ts[0] == ts[1];
  }

  // ---------------------------------------------------------------- "exactly the sorted set"

  /** A list of entries is its own index exactly when its tickers strictly increase. */
  lemma OwnIndexIff(raw: seq<IndexEntry>)
    ensures BuildIndex(raw) == raw <==> StrictlySorted(raw)
  {
    hide BuildIndex;
    BuildIndexCorrect(raw);
    if StrictlySorted(raw) {
      IndexExtensional(BuildIndex(raw), raw);
    }
  }

  predicate Increases(ts: seq<Bytes>) {
    forall i, j :: 0 <= i < j < |ts| ==> Less(ts[i], ts[j])
  }

  predicate CarriedAbove(ts: seq<Bytes>, carried: seq<IndexEntry>) {
    forall t, e :: t in ts && e in carried ==> Less(t, e.ticker)
  }

  /** Every old record the cycle is to carry lies above every crawled ticker. */
  predicate KeptAbove(c: Codec, cycle: Cycle, prev: Option<Snapshot>, ts: seq<Bytes>) {
    prev.Some? ==> forall t, e :: t in ts && e in prev.value.index ==>
      FateOf(c, Latest(c, cycle), prev.value, e, cycle.now).Carried? ==> Less(t, e.ticker)
  }

  /** The carried tickers are those of the old entries whose fate it is. */
  lemma {:induction false} CarriedTickers(c: Codec, bytes: Bytes, latest: seq<IndexEntry>, prev: Snapshot,
                                          now: int, n: nat, t: Bytes)
    requires n <= |prev.index|
    ensures (exists e :: e in CarryOld(c, bytes, latest, prev, now, n).entries && e.ticker == t) <==>
      exists i :: 0 <= i < n && prev.index[i].ticker == t && FateOf(c, latest, prev, prev.index[i], now).Carried?
  {
    hide FateOf;
    if n > 0 {
      CarriedTickers(c, bytes, latest, prev, now, n - 1, t);
      var before := CarryOld(c, bytes, latest, prev, now, n - 1).entries;
      var entries := CarryOld(c, bytes, latest, prev, now, n).entries;
      if FateOf(c, latest, prev, prev.index[n - 1], now).Carried? {
        assert entries == before + [entries[|before|]] && entries[|before|].ticker == prev.index[n - 1].ticker;
        assert entries[|before|] in entries;
      }
    }
  }

  lemma KeptIsCarried(c: Codec, cycle: Cycle, prev: Option<Snapshot>, ts: seq<Bytes>)
    ensures KeptAbove(c, cycle, prev, ts) <==> CarriedAbove(ts, CarriedOver(c, cycle, prev))
  {
    hide FateOf;
    hide CarryOld;
    if prev.Some? {
      var bytes, latest, s, n := Crawled(c, cycle).bytes, Latest(c, cycle), prev.value, |prev.value.index|;
      if KeptAbove(c, cycle, prev, ts) {
        forall t, e | t in ts && e in CarriedOver(c, cycle, prev) ensures Less(t, e.ticker) {
          CarriedTickers(c, bytes, latest, s, cycle.now, n, e.ticker);
          var i :| 0 <= i < n && s.index[i].ticker == e.ticker && FateOf(c, latest, s, s.index[i], cycle.now).Carried?;
          assert s.index[i] in s.index;
        }
      }
      if CarriedAbove(ts, CarriedOver(c, cycle, prev)) {
        forall t, e | t in ts && e in s.index && FateOf(c, latest, s, e, cycle.now).Carried? ensures Less(t, e.ticker) {
          var i :| 0 <= i < n && s.index[i] == e;
          CarriedTickers(c, bytes, latest, s, cycle.now, n, e.ticker);
          var f :| f in CarriedOver(c, cycle, prev) && f.ticker == e.ticker;
        }
      }
    }
  }

  lemma StrictTogether(raw: seq<IndexEntry>, ts: seq<Bytes>, carried: seq<IndexEntry>)
    requires |raw| == |ts| && forall i :: 0 <= i < |ts| ==> raw[i].ticker == ts[i]
    requires StrictlySorted(carried)
    ensures StrictlySorted(raw + carried) <==> Increases(ts) && CarriedAbove(ts, carried)
  {
    var all := raw + carried;
    if StrictlySorted(all) {
      forall i, j | 0 <= i < j < |ts| ensures Less(ts[i], ts[j]) {
        assert all[i] == raw[i] && all[j] == raw[j];
      }
      forall t, e | t in ts && e in carried ensures Less(t, e.ticker) {
        var i :| 0 <= i < |ts| && ts[i] == t;
        var j :| 0 <= j < |carried| && carried[j] == e;
        assert all[i] == raw[i] && all[|raw| + j] == e;
      }
    }
    if Increases(ts) && CarriedAbove(ts, carried) {
      forall i, j | 0 <= i < j < |all| ensures Less(all[i].ticker, all[j].ticker) {
        if j < |raw| {
          assert Less(ts[i], ts[j]);
        } else if i < |raw| {
          assert ts[i] in ts && carried[j - |raw|] in carried;
        }
      }
    }
  }

  /** "Exactly that merged, deduped, sorted set": record for record the log is what the index
      lists, in the index's order, if and only if the crawl filed its events under strictly
      increasing tickers and every old record to be carried lies above them all. */
  lemma LogIsIndexIff(c: Codec, cycle: Cycle, prev: Option<Snapshot>)
    requires PrintableCycle(c, cycle) && (prev.Some? ==> Sound(c, prev.value)) && Compact(c, cycle, prev).Ok?
    ensures var made := Compact(c, cycle, prev).value; var ts := CrawledTickers(c, CrawlEvents(cycle.crawl));
      Entries(c, Lines(made.file)) == made.index <==> Increases(ts) && KeptAbove(c, cycle, prev, ts)
  {
    hide Sound;
    hide Compact;
    hide CarriedOver;
    hide WriteEvents;
    hide CrawledTickers;
    hide BuildIndex;
    hide Increases;
    hide CarriedAbove;
    hide KeptAbove;
    hide StrictlySorted;
    var raw, carried := Crawled(c, cycle).entries, CarriedOver(c, cycle, prev);
    LogHolds(c, cycle, prev);
    CarriedIsApart(c, cycle, prev);
    OwnIndexIff(raw + carried);
    WrittenTickers(c, MetaDraft(c, cycle.start), CrawlEvents(cycle.crawl));
    StrictTogether(raw, CrawledTickers(c, CrawlEvents(cycle.crawl)), carried);
    KeptIsCarried(c, cycle, prev, CrawledTickers(c, CrawlEvents(cycle.crawl)));
  }
}
