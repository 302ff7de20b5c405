/** What a refresh cycle computes (`src/refresh.rs`): the new log, the fate of every old
    record, and the index built beside the log without reading it back. */
module Compaction {
  import opened ByteStrings
  import opened Outcomes
  import opened Records
  import opened Sorting
  import opened Log
  import opened Database

  const PRUNE_GRACE_SECS := 4 * 3600

  // ---------------------------------------------------------------- a log under construction

  function AppendLine(file: Bytes, content: Bytes): Bytes {
    file + content + [NEWLINE]
  }

  /** Bytes written so far and the entries recorded for them; the running offset is the
      number of bytes. */
  datatype Draft = Draft(bytes: Bytes, entries: seq<IndexEntry>)

  function AddRecord(d: Draft, ticker: Bytes, content: Bytes): Draft {
    Draft(AppendLine(d.bytes, content), d.entries + [IndexEntry(ticker, |d.bytes|, AsU32(|content|))])
  }

  /** A file that ends where a line ends. */
  predicate Whole(file: Bytes) {
    file == [] || file[|file| - 1] == NEWLINE
  }

  lemma {:induction false} LinesAppend(file: Bytes, p: nat, content: Bytes)
    requires Whole(file) && p <= |file| && NEWLINE !in content
    ensures LinesFrom(AppendLine(file, content), p) == LinesFrom(file, p) + [Line(|file|, content)]
    decreases |file| - p
  {
    hide LineEnd;
    var grown := AppendLine(file, content);
    if p == |file| {
      assert forall i :: p <= i < p + |content| ==> grown[i] == content[i - p];
      LineEndUnique(grown, p, p + |content|);
      assert grown[p..p + |content|] == content;
      LineEndUnique(grown, |grown|, |grown|);
      LineEndUnique(file, p, p);
    } else {
      var e := LineEnd(file, p);
      assert e < |file|;
      LineEndUnique(grown, p, e);
      assert grown[p..e] == file[p..e];
      LinesAppend(file, e + 1, content);
    }
  }

  lemma Utf8AppendLine(file: Bytes, content: Bytes)
    requires Utf8(file) && Utf8(content)
    ensures Utf8(AppendLine(file, content))
  {
    Utf8Append(file, content);
    assert Utf8([NEWLINE]);
    Utf8Append(file + content, [NEWLINE]);
  }

  /** The bytes are a loadable log, and scanning it would find exactly the entries noted. */
  ghost predicate Accurate(c: Codec, bytes: Bytes, entries: seq<IndexEntry>, builtAt: nat) {
    && Whole(bytes) && Utf8(bytes)
    && Lines(bytes) != []
    && (forall mtime :: Header(c, Lines(bytes), mtime) == (builtAt, DB_FORMAT_VERSION))
    && Entries(c, Lines(bytes)) == entries
  }

  lemma AddRecordAccurate(c: Codec, d: Draft, before: seq<IndexEntry>, ticker: Bytes, content: Bytes, builtAt: nat)
    requires Accurate(c, d.bytes, before + d.entries, builtAt) && d.bytes != []
    requires NEWLINE !in content && Utf8(content)
    requires Parse(c, content).Some? && TickerOf(c, Parse(c, content).value) == ticker != []
    ensures var d' := AddRecord(d, ticker, content);
      Accurate(c, d'.bytes, before + d'.entries, builtAt) && d'.bytes != []
  {
    hide Utf8;
    var d' := AddRecord(d, ticker, content);
    LinesAppend(d.bytes, 0, content);
    Utf8AppendLine(d.bytes, content);
    var l := Line(|d.bytes|, content);
    var ls := Lines(d.bytes);
    assert (ls + [l])[..|ls|] == ls;
    assert EntryOf(c, l) == Some(IndexEntry(ticker, |d.bytes|, AsU32(|content|)));
    assert before + d'.entries == (before + d.entries) + [EntryOf(c, l).value];
    forall mtime ensures Header(c, Lines(d'.bytes), mtime) == (builtAt, DB_FORMAT_VERSION) {
      assert Header(c, ls, mtime) == (builtAt, DB_FORMAT_VERSION);
    }
  }

  // ---------------------------------------------------------------- phase 1: the crawl

  datatype Page = Events(events: seq<Event>) | Failed

  /** One cycle's crawl: the pages of the plain pass, and of the v2 pass if enabled. */
  datatype Crawl = Crawl(v1: seq<Page>, v2: Option<seq<Page>>)

  /** The events of a pass up to its first failed page. */
  function PassEvents(pages: seq<Page>): seq<Event> {
    if pages == [] || pages[0].Failed? then []
    else pages[0].events + PassEvents(pages[1..])
  }

  predicate PassFails(pages: seq<Page>) {
    Failed in pages
  }

  function CrawlEvents(crawl: Crawl): seq<Event> {
    PassEvents(crawl.v1) + (if crawl.v2.Some? then PassEvents(crawl.v2.value) else [])
  }

  function MetaDraft(c: Codec, builtAt: nat): Draft {
    Draft(AppendLine([], Show(c, MetaJson(builtAt))), [])
  }

  function WriteEvent(c: Codec, d: Draft, e: Event): Draft {
    var ticker := Trim(c, e.ticker);
    if ticker == [] then d else AddRecord(d, ticker, Show(c, EventJson(e)))
  }

  function WriteEvents(c: Codec, d: Draft, events: seq<Event>): Draft {
    if events == [] then d
    else WriteEvent(c, WriteEvents(c, d, events[..|events| - 1]), events[|events| - 1])
  }

  // ---------------------------------------------------------------- phase 2: the old records

  /** What becomes of an old entry. */
  datatype Fate = Recrawled | Dropped | Pruned | Unreadable | Carried(raw: Bytes)

  /** Whether the stored record's end date lies more than the grace period in the past. */
  predicate Expired(c: Codec, event: Event, now: int) {
    event.endDate.Some? && ParseTime(c, event.endDate.value).Some?
    && now - ParseTime(c, event.endDate.value).value > PRUNE_GRACE_SECS
  }

  function FateOf(c: Codec, latest: seq<IndexEntry>, prev: Snapshot, e: IndexEntry, now: int): Fate {
    if LastFor(latest, e.ticker).Some? then Recrawled
    else
      match ReadRaw(prev.file, e)
      case None => Unreadable
      case Some(raw) =>
        match Parse(c, raw)
        case None => Carried(raw)
        case Some(v) =>
          match EventOf(v)
          case None => Dropped
          case Some(event) =>
            if event.ticker == NULL_TICKER then Dropped
            else if Expired(c, event, now) then Pruned
            else Carried(raw)
  }

  /** The draft after the first `n` old entries have met their fates. */
  function CarryOld(c: Codec, bytes: Bytes, latest: seq<IndexEntry>, prev: Snapshot, now: int, n: nat): Draft
    requires n <= |prev.index|
  {
    if n == 0 then Draft(bytes, [])
    else
      var d := CarryOld(c, bytes, latest, prev, now, n - 1);
      var e := prev.index[n - 1];
      match FateOf(c, latest, prev, e, now)
      case Carried(raw) => AddRecord(d, e.ticker, raw)
      case _ => d
  }

  /** How many of the first `n` old entries meet a fate. */
  function CountFate(c: Codec, latest: seq<IndexEntry>, prev: Snapshot, now: int, n: nat, which: Fate -> bool): nat
    requires n <= |prev.index|
  {
    if n == 0 then 0
    else
      CountFate(c, latest, prev, now, n - 1, which)
      + (if which(FateOf(c, latest, prev, prev.index[n - 1], now)) then 1 else 0)
  }

  ghost predicate Readable(c: Codec, latest: seq<IndexEntry>, prev: Snapshot, now: int, n: nat)
    requires n <= |prev.index|
  {
    forall i :: 0 <= i < n ==> FateOf(c, latest, prev, prev.index[i], now) != Unreadable
  }

  // ---------------------------------------------------------------- the whole cycle

  /** Everything a cycle takes from outside: the crawl, the clock at its start and the
      clock during the merge. */
  datatype Cycle = Cycle(crawl: Crawl, start: nat, now: int)

  function Crawled(c: Codec, cycle: Cycle): Draft {
    WriteEvents(c, MetaDraft(c, cycle.start), CrawlEvents(cycle.crawl))
  }

  function Latest(c: Codec, cycle: Cycle): seq<IndexEntry> {
    BuildIndex(Crawled(c, cycle).entries)
  }

  function Carry(c: Codec, cycle: Cycle, prev: Snapshot): Draft {
    CarryOld(c, Crawled(c, cycle).bytes, Latest(c, cycle), prev, cycle.now, |prev.index|)
  }

  /** The new snapshot, index beside log, as the refresh builds it without re-reading. */
  ghost function Compact(c: Codec, cycle: Cycle, prev: Option<Snapshot>): Result<Snapshot, Error> {
    var latest := Latest(c, cycle);
    if PassFails(cycle.crawl.v1) then Err(CrawlFailed)
    else
      match prev
      case None =>
        if latest == [] then Err(EmptyCrawl)
        else Ok(Snapshot(latest, Crawled(c, cycle).bytes, AsU32(|latest|), cycle.start, DB_FORMAT_VERSION))
      case Some(o) =>
        if !Readable(c, latest, o, cycle.now, |o.index|) then Err(ReadFailed)
        else
          var d := Carry(c, cycle, o);
          var index := StableSort(TickerLess, latest + d.entries);
          Ok(Snapshot(index, d.bytes, AsU32(|index|), cycle.start, DB_FORMAT_VERSION))
  }

  /** The cycle's own records survive printing and parsing. */
  ghost predicate PrintableCycle(c: Codec, cycle: Cycle) {
    && cycle.start < U64_MODULUS
    && Printable(c, MetaJson(cycle.start))
    && forall e :: e in CrawlEvents(cycle.crawl) ==> Printable(c, EventJson(e))
  }

  // ---------------------------------------------------------------- the written log is accurate

  lemma MetaDraftAccurate(c: Codec, builtAt: nat)
    requires builtAt < U64_MODULUS && Printable(c, MetaJson(builtAt))
    ensures var d := MetaDraft(c, builtAt); Accurate(c, d.bytes, [] + d.entries, builtAt) && d.bytes != []
  {
    hide Utf8;
    var text := Show(c, MetaJson(builtAt));
    var d := MetaDraft(c, builtAt);
    MetaJsonView(builtAt);
    assert Utf8([]) by { EmptyIsUtf8(); }
    LinesAppend([], 0, text);
    Utf8AppendLine([], text);
    assert Lines([]) == [];
    var l := Line(0, text);
    assert Lines(d.bytes) == [l];
    assert ViewOf(Parse(c, text).value) == ViewOf(MetaJson(builtAt));
    assert IsMetaLine(c, l) && EntryOf(c, l) == None;
    assert [l][..0] == [];
    assert Entries(c, [l]) == [];
    assert forall mtime :: Header(c, [l], mtime) == (builtAt, DB_FORMAT_VERSION);
  }

  lemma EmptyIsUtf8()
    ensures Utf8([])
  {}

  lemma {:induction false} WriteEventsAccurate(c: Codec, d: Draft, events: seq<Event>, builtAt: nat)
    requires Accurate(c, d.bytes, [] + d.entries, builtAt) && d.bytes != []
    requires forall e :: e in events ==> Printable(c, EventJson(e))
    ensures var d' := WriteEvents(c, d, events); Accurate(c, d'.bytes, [] + d'.entries, builtAt) && d'.bytes != []
  {
    hide Accurate;
    hide Utf8;
    if events != [] {
      var front, e := events[..|events| - 1], events[|events| - 1];
      assert e in events;
      WriteEventsAccurate(c, d, front, builtAt);
      EventJsonView(e);
      var ticker := Trim(c, e.ticker);
      if ticker != [] {
        AddRecordAccurate(c, WriteEvents(c, d, front), [], ticker, Show(c, EventJson(e)), builtAt);
      }
    }
  }

  lemma SoundRaw(c: Codec, prev: Snapshot, e: IndexEntry)
    requires Sound(c, prev) && e in prev.index
    ensures ReadRaw(prev.file, e).Some?
    ensures var raw := ReadRaw(prev.file, e).value;
      |raw| == e.len < U32_MODULUS && NEWLINE !in raw && Utf8(raw)
      && Parse(c, raw).Some? && TickerOf(c, Parse(c, raw).value) == e.ticker != []
  {
    hide Utf8;
    assert AddressesRecord(c, prev.file, e);
    if e.len == 0 {
      assert prev.file[e.offset..e.offset + e.len] == [];
    }
  }

  lemma {:induction false} CarryOldAccurate(c: Codec, bytes: Bytes, before: seq<IndexEntry>, latest: seq<IndexEntry>,
                         prev: Snapshot, now: int, n: nat, builtAt: nat)
    requires n <= |prev.index| && Sound(c, prev)
    requires Accurate(c, bytes, before, builtAt) && bytes != []
    ensures var d := CarryOld(c, bytes, latest, prev, now, n);
      Accurate(c, d.bytes, before + d.entries, builtAt) && d.bytes != []
  {
    hide Accurate;
    hide Utf8;
    hide Sound;
    if n == 0 {
      assert before + [] == before;
    } else {
      CarryOldAccurate(c, bytes, before, latest, prev, now, n - 1, builtAt);
      var e := prev.index[n - 1];
      match FateOf(c, latest, prev, e, now) {
        case Carried(raw) =>
          SoundRaw(c, prev, e);
          AddRecordAccurate(c, CarryOld(c, bytes, latest, prev, now, n - 1), before, e.ticker, raw, builtAt);
        case _ =>
      }
    }
  }

  // ---------------------------------------------------------------- latest and carried never clash

  lemma {:induction false} LastForAppend(a: seq<IndexEntry>, b: seq<IndexEntry>, t: Bytes)
    ensures LastFor(a + b, t) == if LastFor(b, t).Some? then LastFor(b, t) else LastFor(a, t)
  {
    if b == [] {
      assert a + b == a;
    } else {
      assert (a + b)[..|a + b| - 1] == a + b[..|b| - 1];
      LastForAppend(a, b[..|b| - 1], t);
    }
  }

  /** Carried entries keep the old index's order and avoid every freshly crawled ticker. */
  lemma {:induction false} CarriedEntries(c: Codec, bytes: Bytes, latest: seq<IndexEntry>, prev: Snapshot,
                                          now: int, n: nat)
    requires n <= |prev.index| && StrictlySorted(prev.index)
    ensures var carried := CarryOld(c, bytes, latest, prev, now, n).entries;
      && StrictlySorted(carried)
      && (forall e :: e in carried ==> LastFor(latest, e.ticker).None?)
      && (forall e :: e in carried ==> exists i :: 0 <= i < n && prev.index[i].ticker == e.ticker)
  {
    hide FateOf;
    if n > 0 {
      CarriedEntries(c, bytes, latest, prev, now, n - 1);
      var carried := CarryOld(c, bytes, latest, prev, now, n - 1).entries;
      var e := prev.index[n - 1];
      var fate := FateOf(c, latest, prev, e, now);
      if fate.Carried? {
        CarriedIsNotFresh(c, latest, prev, e, now);
        if carried != [] {
          assert carried[|carried| - 1] in carried;
          var i :| 0 <= i < n - 1 && prev.index[i].ticker == carried[|carried| - 1].ticker;
        }
        StrictlySortedAppend(carried, CarryOld(c, bytes, latest, prev, now, n).entries[|carried|]);
      }
    }
  }

  lemma CarriedIsNotFresh(c: Codec, latest: seq<IndexEntry>, prev: Snapshot, e: IndexEntry, now: int)
    requires FateOf(c, latest, prev, e, now).Carried?
    ensures LastFor(latest, e.ticker).None?
  {}

  lemma {:induction false} TwoTied(s: seq<IndexEntry>, i: nat, j: nat, x: IndexEntry)
    requires i < j < |s| && Tied(TickerLess, s[i], x) && Tied(TickerLess, s[j], x)
    ensures |TiedWith(TickerLess, s, x)| >= 2
  {
    var front := s[..|s| - 1];
    if j < |s| - 1 {
      TwoTied(front, i, j, x);
    } else {
      TiedIn(TickerLess, front, x);
      assert front[i] in TiedWith(TickerLess, front, x);
    }
  }

  lemma UntiedIsStrict(s: seq<IndexEntry>)
    requires Sorted(TickerLess, s)
    requires forall x :: |TiedWith(TickerLess, s, x)| <= 1
    ensures StrictlySorted(s)
  {
    forall i, j | 0 <= i < j < |s| ensures Less(s[i].ticker, s[j].ticker) {
      LessTrichotomy(s[i].ticker, s[j].ticker);
      LessIrreflexive(s[i].ticker);
      if !Less(s[i].ticker, s[j].ticker) {
        assert !TickerLess(s[j], s[i]);
        TwoTied(s, i, j, s[i]);
      }
    }
  }

  lemma AtMostOneTied(latest: seq<IndexEntry>, carried: seq<IndexEntry>, x: IndexEntry)
    requires StrictlySorted(latest) && StrictlySorted(carried)
    requires forall e :: e in carried ==> LastFor(latest, e.ticker).None?
    ensures |TiedWith(TickerLess, latest + carried, x)| <= 1
  {
    TiedAppend(TickerLess, latest, carried, x);
    StrictlySortedTied(latest, x);
    StrictlySortedTied(carried, x);
  }

  /** Merging two strictly sorted runs without a common ticker gives one strictly sorted
      run that answers lookups from both. */
  lemma MergeSorted(latest: seq<IndexEntry>, carried: seq<IndexEntry>)
    requires StrictlySorted(latest) && StrictlySorted(carried)
    requires forall e :: e in carried ==> LastFor(latest, e.ticker).None?
    ensures StrictlySorted(StableSort(TickerLess, latest + carried))
    ensures forall t :: LastFor(StableSort(TickerLess, latest + carried), t) == LastFor(latest + carried, t)
  {
    hide StableSort;
    hide TiedWith;
    TickerLessIsStrictWeak();
    var index := StableSort(TickerLess, latest + carried);
    StableSortCorrect(TickerLess, latest + carried);
    forall x ensures |TiedWith(TickerLess, index, x)| <= 1 {
      AtMostOneTied(latest, carried, x);
    }
    UntiedIsStrict(index);
    forall t ensures LastFor(index, t) == LastFor(latest + carried, t) {
      SortAnswers(latest + carried, t);
    }
  }

  // ---------------------------------------------------------------- reload agreement

  lemma CompactAccurate(c: Codec, cycle: Cycle)
    requires PrintableCycle(c, cycle)
    ensures var d := Crawled(c, cycle); Accurate(c, d.bytes, d.entries, cycle.start) && d.bytes != []
  {
    hide Accurate;
    MetaDraftAccurate(c, cycle.start);
    WriteEventsAccurate(c, MetaDraft(c, cycle.start), CrawlEvents(cycle.crawl), cycle.start);
    var d := Crawled(c, cycle);
    assert [] + d.entries == d.entries;
  }

  lemma AccurateLoads(c: Codec, bytes: Bytes, entries: seq<IndexEntry>, builtAt: nat, mtime: nat)
    requires Accurate(c, bytes, entries, builtAt)
    ensures Load(c, bytes, mtime) ==
      Ok(Snapshot(BuildIndex(entries), bytes, AsU32(|BuildIndex(entries)|), builtAt, DB_FORMAT_VERSION))
  {
    assert Header(c, Lines(bytes), mtime) == (builtAt, DB_FORMAT_VERSION);
  }

  /** The index built beside the log is the one a scan of raw entries builds. */
  lemma MergedIsBuilt(raw: seq<IndexEntry>, carried: seq<IndexEntry>)
    requires StrictlySorted(carried)
    requires forall e :: e in carried ==> LastFor(BuildIndex(raw), e.ticker).None?
    ensures StableSort(TickerLess, BuildIndex(raw) + carried) == BuildIndex(raw + carried)
  {
    var latest := BuildIndex(raw);
    BuildIndexCorrect(raw);
    BuildIndexCorrect(raw + carried);
    MergeSorted(latest, carried);
    var index := StableSort(TickerLess, latest + carried);
    forall t ensures LastFor(index, t) == LastFor(BuildIndex(raw + carried), t) {
      LastForAppend(latest, carried, t);
      LastForAppend(raw, carried, t);
      assert LastFor(index, t) == LastFor(latest + carried, t);
      assert LastFor(latest, t) == LastFor(raw, t);
      assert LastFor(BuildIndex(raw + carried), t) == LastFor(raw + carried, t);
    }
    IndexExtensional(index, BuildIndex(raw + carried));
  }

  /** Loading the log a refresh wrote gives exactly the snapshot the refresh built in
      memory: index, line count, build time and format version, whatever the file's mtime. */
  lemma ReloadAgreement(c: Codec, cycle: Cycle, prev: Option<Snapshot>, mtime: nat)
    requires PrintableCycle(c, cycle)
    requires prev.Some? ==> Sound(c, prev.value)
    requires Compact(c, cycle, prev).Ok?
    ensures Load(c, Compact(c, cycle, prev).value.file, mtime) == Compact(c, cycle, prev)
  {
    hide Accurate;
    hide Load;
    CompactAccurate(c, cycle);
    var raw := Crawled(c, cycle);
    match prev {
      case None =>
        AccurateLoads(c, raw.bytes, raw.entries, cycle.start, mtime);
      case Some(o) =>
        var latest := Latest(c, cycle);
        var d := Carry(c, cycle, o);
        CarryOldAccurate(c, raw.bytes, raw.entries, latest, o, cycle.now, |o.index|, cycle.start);
        AccurateLoads(c, d.bytes, raw.entries + d.entries, cycle.start, mtime);
        CarriedEntries(c, raw.bytes, latest, o, cycle.now, |o.index|);
        MergedIsBuilt(raw.entries, d.entries);
    }
  }
}
