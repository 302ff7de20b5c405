/** What a client is served over any number of refresh cycles
    (`merge_carry_forward`, `spawn_refresh_loop` in `src/refresh.rs`). */
module History {
  import opened ByteStrings
  import opened Outcomes
  import opened Records
  import opened Sorting
  import opened Log
  import opened Database
  import opened Compaction
  import opened Queries

  // ---------------------------------------------------------------- the record of a ticker in a log

  /** The last record of a ticker in a log, by linear scan. */
  function RecordIn(c: Codec, file: Bytes, t: Bytes): Option<Bytes> {
    match LastLine(c, Lines(file), t)
    case Some(l) => Some(l.content)
    case None => None
  }

  lemma AppendLast(c: Codec, ls: seq<Line>, l: Line, t: Bytes)
    ensures LastLine(c, ls + [l], t) ==
      if EntryOf(c, l).Some? && EntryOf(c, l).value.ticker == t then Some(l) else LastLine(c, ls, t)
  {
    assert (ls + [l])[..|ls|] == ls;
  }

  lemma RecordAppended(c: Codec, file: Bytes, content: Bytes, t: Bytes)
    requires Whole(file) && file != [] && NEWLINE !in content
    requires Parse(c, content).Some? && TickerOf(c, Parse(c, content).value) != []
    ensures RecordIn(c, AppendLine(file, content), t) ==
      if TickerOf(c, Parse(c, content).value) == t then Some(content) else RecordIn(c, file, t)
  {
    LinesAppend(file, 0, content);
    AppendLast(c, Lines(file), Line(|file|, content), t);
  }

  /** The last event of a crawl filed under a ticker. */
  function LastCrawled(c: Codec, events: seq<Event>, t: Bytes): Option<Event> {
    if events == [] then None
    else if Trim(c, events[|events| - 1].ticker) == t then Some(events[|events| - 1])
    else LastCrawled(c, events[..|events| - 1], t)
  }

  function FiledUnder(c: Codec, t: Bytes): Event -> bool { (e: Event) => Trim(c, e.ticker) == t }

  /** Last means that no later event trims to the ticker. */
  lemma {:induction false} LastCrawledIff(c: Codec, events: seq<Event>, t: Bytes, e: Event)
    ensures LastCrawled(c, events, t) == Some(e) <==> IsLast(events, FiledUnder(c, t), e)
  {
    if events != [] {
      LastCrawledIff(c, events[..|events| - 1], t, e);
      LastOneMore(events[..|events| - 1], FiledUnder(c, t), events[|events| - 1], e);
      assert events == events[..|events| - 1] + [events[|events| - 1]];
    }
  }

  lemma {:induction false} LastCrawledAppend(c: Codec, a: seq<Event>, b: seq<Event>, t: Bytes)
    ensures LastCrawled(c, a + b, t) ==
      if LastCrawled(c, b, t).Some? then LastCrawled(c, b, t) else LastCrawled(c, a, t)
  {
    if b == [] {
      assert a + b == a;
    } else {
      assert (a + b)[..|a + b| - 1] == a + b[..|b| - 1];
      LastCrawledAppend(c, a, b[..|b| - 1], t);
    }
  }

  /** Where both passes found a ticker, the second one's event is the one stored. */
  lemma SecondPassWins(c: Codec, crawl: Crawl, t: Bytes)
    ensures LastCrawled(c, CrawlEvents(crawl), t) ==
      if crawl.v2.Some? && LastCrawled(c, PassEvents(crawl.v2.value), t).Some?
      then LastCrawled(c, PassEvents(crawl.v2.value), t)
      else LastCrawled(c, PassEvents(crawl.v1), t)
  {
    LastCrawledAppend(c, PassEvents(crawl.v1), if crawl.v2.Some? then PassEvents(crawl.v2.value) else [], t);
  }

  lemma {:induction false} LastCrawledIn(c: Codec, events: seq<Event>, t: Bytes)
    ensures LastCrawled(c, events, t).Some? ==>
      LastCrawled(c, events, t).value in events && Trim(c, LastCrawled(c, events, t).value.ticker) == t
  {
    if events != [] {
      LastCrawledIn(c, events[..|events| - 1], t);
    }
  }

  lemma {:induction false} WrittenRecord(c: Codec, d: Draft, events: seq<Event>, builtAt: nat, t: Bytes)
    requires Accurate(c, d.bytes, [] + d.entries, builtAt) && d.bytes != [] && t != []
    requires forall e :: e in events ==> Printable(c, EventJson(e))
    ensures RecordIn(c, WriteEvents(c, d, events).bytes, t) ==
      match LastCrawled(c, events, t)
      case Some(e) => Some(Show(c, EventJson(e)))
      case None => RecordIn(c, d.bytes, t)
  {
    hide Utf8;
    hide RecordIn;
    hide Lines;
    if events != [] {
      var front, e := events[..|events| - 1], events[|events| - 1];
      assert e in events;
      WrittenRecord(c, d, front, builtAt, t);
      WriteEventsAccurate(c, d, front, builtAt);
      EventJsonView(e);
      if Trim(c, e.ticker) != [] {
        RecordAppended(c, WriteEvents(c, d, front).bytes, Show(c, EventJson(e)), t);
      }
    }
  }

  lemma MetaHasNoRecord(c: Codec, builtAt: nat, t: Bytes)
    requires builtAt < U64_MODULUS && Printable(c, MetaJson(builtAt))
    ensures RecordIn(c, MetaDraft(c, builtAt).bytes, t) == None
  {
    MetaDraftAccurate(c, builtAt);
    LastForIsLastLine(c, Lines(MetaDraft(c, builtAt).bytes), t);
  }

  lemma CrawledRecord(c: Codec, cycle: Cycle, t: Bytes)
    requires PrintableCycle(c, cycle) && t != []
    ensures var crawled := LastCrawled(c, CrawlEvents(cycle.crawl), t);
      && RecordIn(c, Crawled(c, cycle).bytes, t) ==
           (match crawled case Some(e) => Some(Show(c, EventJson(e))) case None => None)
      && (LastFor(Latest(c, cycle), t).Some? <==> crawled.Some?)
  {
    hide Accurate;
    MetaDraftAccurate(c, cycle.start);
    MetaHasNoRecord(c, cycle.start, t);
    WrittenRecord(c, MetaDraft(c, cycle.start), CrawlEvents(cycle.crawl), cycle.start, t);
    CompactAccurate(c, cycle);
    BuildIndexCorrect(Crawled(c, cycle).entries);
    AccurateLookup(c, Crawled(c, cycle), cycle.start, t);
  }

  lemma AccurateLookup(c: Codec, d: Draft, builtAt: nat, t: Bytes)
    requires Accurate(c, d.bytes, d.entries, builtAt)
    ensures LastFor(d.entries, t).Some? <==> RecordIn(c, d.bytes, t).Some?
  {
    LastForIsLastLine(c, Lines(d.bytes), t);
  }

  /** What a walk over some old entries leaves as the record of `t`: the one carried for it,
      or the one the crawl wrote. */
  function CarriedOr(c: Codec, latest: seq<IndexEntry>, prev: Snapshot, now: int,
                     found: Option<IndexEntry>, crawled: Option<Bytes>): Option<Bytes>
  {
    if found.Some? && FateOf(c, latest, prev, found.value, now).Carried?
    then Some(FateOf(c, latest, prev, found.value, now).raw)
    else crawled
  }

  lemma LookupOneMore(index: seq<IndexEntry>, n: nat, t: Bytes)
    requires StrictlySorted(index) && n < |index|
    ensures LastFor(index[..n + 1], t) == if index[n].ticker == t then Some(index[n]) else LastFor(index[..n], t)
    ensures index[n].ticker == t ==> LastFor(index[..n], t) == None
  {
    assert index[..n + 1][..n] == index[..n];
    if index[n].ticker == t {
      PrefixLacks(index, n);
    }
  }

  lemma {:induction false} CarriedRecord(c: Codec, bytes: Bytes, before: seq<IndexEntry>, latest: seq<IndexEntry>,
                                         prev: Snapshot, now: int, n: nat, builtAt: nat, t: Bytes)
    requires n <= |prev.index| && Sound(c, prev)
    requires Accurate(c, bytes, before, builtAt) && bytes != []
    ensures RecordIn(c, CarryOld(c, bytes, latest, prev, now, n).bytes, t) ==
      CarriedOr(c, latest, prev, now, LastFor(prev.index[..n], t), RecordIn(c, bytes, t))
  {
    hide Utf8;
    hide RecordIn;
    hide FateOf;
    hide Lines;
    hide LastFor;
    hide Sound;
    hide StrictlySorted;
    if n == 0 {
      assert prev.index[..0] == [];
      NoneInNothing(t);
    } else {
      var e := prev.index[n - 1];
      CarriedRecord(c, bytes, before, latest, prev, now, n - 1, builtAt, t);
      CarryOldAccurate(c, bytes, before, latest, prev, now, n - 1, builtAt);
      assert StrictlySorted(prev.index) by { SoundIsSorted(c, prev); }
      LookupOneMore(prev.index, n - 1, t);
      match FateOf(c, latest, prev, e, now) {
        case Carried(raw) =>
          CarriedRaw(c, latest, prev, e, now);
          SoundRaw(c, prev, e);
          RecordAppended(c, CarryOld(c, bytes, latest, prev, now, n - 1).bytes, raw, t);
        case _ =>
      }
    }
  }

  lemma NoneInNothing(t: Bytes)
    ensures LastFor([], t) == None
  {}

  lemma SoundIsSorted(c: Codec, s: Snapshot)
    requires Sound(c, s)
    ensures StrictlySorted(s.index)
  {}

  lemma CarriedRaw(c: Codec, latest: seq<IndexEntry>, prev: Snapshot, e: IndexEntry, now: int)
    requires FateOf(c, latest, prev, e, now).Carried?
    ensures ReadRaw(prev.file, e) == Some(FateOf(c, latest, prev, e, now).raw)
  {}

  lemma PrefixLacks(index: seq<IndexEntry>, n: nat)
    requires StrictlySorted(index) && n < |index|
    ensures LastFor(index[..n], index[n].ticker) == None
  {
    LessIrreflexive(index[n].ticker);
    forall e | e in index[..n] ensures e.ticker != index[n].ticker {
      var i :| 0 <= i < n && index[..n][i] == e;
      assert Less(index[i].ticker, index[n].ticker);
    }
  }

  // ---------------------------------------------------------------- one cycle

  /** Records the crawl printed fit the index's 32-bit length. */
  ghost predicate ShortCycle(c: Codec, cycle: Cycle) {
    forall e :: e in CrawlEvents(cycle.crawl) ==> |Show(c, EventJson(e))| < U32_MODULUS
  }

  /** The database's reasons for letting go of a record that was not crawled again. */
  predicate Evicted(c: Codec, raw: Bytes, now: int) {
    match Parse(c, raw)
    case None => false
    case Some(v) =>
      match EventOf(v)
      case None => true
      case Some(event) => event.ticker == NULL_TICKER || Expired(c, event, now)
  }

  lemma AppendShort(c: Codec, file: Bytes, content: Bytes)
    requires ShortRecords(c, file) && Whole(file) && NEWLINE !in content && |content| < U32_MODULUS
    ensures ShortRecords(c, AppendLine(file, content))
  {
    LinesAppend(file, 0, content);
  }

  lemma {:induction false} WrittenShort(c: Codec, d: Draft, events: seq<Event>, builtAt: nat)
    requires Accurate(c, d.bytes, [] + d.entries, builtAt) && d.bytes != [] && ShortRecords(c, d.bytes)
    requires forall e :: e in events ==> Printable(c, EventJson(e)) && |Show(c, EventJson(e))| < U32_MODULUS
    ensures ShortRecords(c, WriteEvents(c, d, events).bytes)
  {
    hide Utf8;
    hide ShortRecords;
    hide Lines;
    if events != [] {
      var front, e := events[..|events| - 1], events[|events| - 1];
      assert e in events;
      WrittenShort(c, d, front, builtAt);
      WriteEventsAccurate(c, d, front, builtAt);
      if Trim(c, e.ticker) != [] {
        AppendShort(c, WriteEvents(c, d, front).bytes, Show(c, EventJson(e)));
      }
    }
  }

  lemma {:induction false} CarriedShort(c: Codec, bytes: Bytes, before: seq<IndexEntry>, latest: seq<IndexEntry>,
                                        prev: Snapshot, now: int, n: nat, builtAt: nat)
    requires n <= |prev.index| && Sound(c, prev)
    requires Accurate(c, bytes, before, builtAt) && bytes != [] && ShortRecords(c, bytes)
    ensures ShortRecords(c, CarryOld(c, bytes, latest, prev, now, n).bytes)
  {
    hide Utf8;
    hide ShortRecords;
    hide FateOf;
    hide Lines;
    hide Sound;
    if n > 0 {
      var e := prev.index[n - 1];
      CarriedShort(c, bytes, before, latest, prev, now, n - 1, builtAt);
      CarryOldAccurate(c, bytes, before, latest, prev, now, n - 1, builtAt);
      match FateOf(c, latest, prev, e, now) {
        case Carried(raw) =>
          CarriedRaw(c, latest, prev, e, now);
          SoundRaw(c, prev, e);
          AppendShort(c, CarryOld(c, bytes, latest, prev, now, n - 1).bytes, raw);
        case _ =>
      }
    }
  }

  lemma MetaShort(c: Codec, builtAt: nat)
    requires builtAt < U64_MODULUS && Printable(c, MetaJson(builtAt))
    ensures ShortRecords(c, MetaDraft(c, builtAt).bytes)
  {
    MetaDraftAccurate(c, builtAt);
    var ls := Lines(MetaDraft(c, builtAt).bytes);
    forall l | l in ls ensures EntryOf(c, l).None? {
      EntriesOfNothing(c, ls, l);
    }
  }

  lemma {:induction false} EntriesOfNothing(c: Codec, ls: seq<Line>, l: Line)
    requires Entries(c, ls) == [] && l in ls
    ensures EntryOf(c, l).None?
  {
    if l != ls[|ls| - 1] {
      EntriesOfNothing(c, ls[..|ls| - 1], l);
    }
  }

  /** A successful cycle hands over a sound snapshot again. */
  lemma CompactSound(c: Codec, cycle: Cycle, prev: Option<Snapshot>)
    requires PrintableCycle(c, cycle) && ShortCycle(c, cycle)
    requires prev.Some? ==> Sound(c, prev.value)
    requires Compact(c, cycle, prev).Ok?
    ensures Sound(c, Compact(c, cycle, prev).value)
    ensures ShortRecords(c, Compact(c, cycle, prev).value.file)
  {
    hide Sound;
    hide Accurate;
    hide ShortRecords;
    MetaDraftAccurate(c, cycle.start);
    MetaShort(c, cycle.start);
    WrittenShort(c, MetaDraft(c, cycle.start), CrawlEvents(cycle.crawl), cycle.start);
    CompactAccurate(c, cycle);
    if prev.Some? {
      var d := Crawled(c, cycle);
      CarriedShort(c, d.bytes, d.entries, Latest(c, cycle), prev.value, cycle.now, |prev.value.index|, cycle.start);
    }
    ReloadAgreement(c, cycle, prev, 0);
    LoadSound(c, Compact(c, cycle, prev).value.file, 0);
  }

  lemma CompactFetch(c: Codec, cycle: Cycle, prev: Option<Snapshot>, t: Bytes)
    requires PrintableCycle(c, cycle) && ShortCycle(c, cycle)
    requires prev.Some? ==> Sound(c, prev.value)
    requires Compact(c, cycle, prev).Ok?
    ensures Fetch(Compact(c, cycle, prev).value, t) == RecordIn(c, Compact(c, cycle, prev).value.file, t)
  {
    hide Sound;
    hide Compact;
    hide Fetch;
    var s := Compact(c, cycle, prev).value;
    ReloadAgreement(c, cycle, prev, 0);
    CompactSound(c, cycle, prev);
    LoadedFetch(c, s.file, 0, t);
    LastLineIsRecord(c, Lines(s.file), t);
    match LastLine(c, Lines(s.file), t) {
      case Some(l) => assert l.content[..|l.content|] == l.content;
      case None =>
    }
  }

  /** What was served before a cycle; nothing before the first. */
  function FetchBefore(prev: Option<Snapshot>, t: Bytes): Option<Bytes> {
    match prev
    case Some(s) => Fetch(s, t)
    case None => None
  }

  /** What one successful cycle, the first one included, does to a ticker: the crawl's last
      event wins; an uncrawled record is kept byte for byte unless the database has a reason
      to evict it. */
  lemma {:induction false} RefreshedRecord(c: Codec, cycle: Cycle, prev: Option<Snapshot>, t: Bytes)
    requires PrintableCycle(c, cycle) && ShortCycle(c, cycle) && t != []
    requires prev.Some? ==> Sound(c, prev.value)
    requires Compact(c, cycle, prev).Ok?
    ensures Fetch(Compact(c, cycle, prev).value, t) ==
      match LastCrawled(c, CrawlEvents(cycle.crawl), t)
      case Some(e) => Some(Show(c, EventJson(e)))
      case None =>
        (match FetchBefore(prev, t)
         case None => None
         case Some(raw) => if Evicted(c, raw, cycle.now) then None else Some(raw))
  {
    hide Sound;
    hide Fetch;
    hide RecordIn;
    hide Evicted;
    CompactFetch(c, cycle, prev, t);
    CrawledRecord(c, cycle, t);
    if prev.Some? {
      CarriedOrCrawled(c, cycle, prev.value, t);
    }
  }

  lemma CarriedOrCrawled(c: Codec, cycle: Cycle, prev: Snapshot, t: Bytes)
    requires PrintableCycle(c, cycle) && Sound(c, prev)
    ensures RecordIn(c, Carry(c, cycle, prev).bytes, t) ==
      if LastFor(Latest(c, cycle), t).None? && Fetch(prev, t).Some? && !Evicted(c, Fetch(prev, t).value, cycle.now)
      then Fetch(prev, t)
      else RecordIn(c, Crawled(c, cycle).bytes, t)
  {
    hide AddressesRecord;
    hide Accurate;
    hide RecordIn;
    var d, n := Crawled(c, cycle), |prev.index|;
    CompactAccurate(c, cycle);
    CarriedRecord(c, d.bytes, d.entries, Latest(c, cycle), prev, cycle.now, n, cycle.start, t);
    assert prev.index[..n] == prev.index;
    FindIsLinearScan(prev, t);
    if Find(prev, t).Some? {
      SoundRaw(c, prev, Find(prev, t).value);
    }
  }

  /** A cycle on a sound snapshot fails only with its crawl. */
  lemma CompactSucceeds(c: Codec, cycle: Cycle, prev: Snapshot)
    requires Sound(c, prev)
    ensures Compact(c, cycle, Some(prev)).Ok? <==> !PassFails(cycle.crawl.v1)
  {
    hide AddressesRecord;
    forall i | 0 <= i < |prev.index|
      ensures FateOf(c, Latest(c, cycle), prev, prev.index[i], cycle.now) != Unreadable
    {
      SoundRaw(c, prev, prev.index[i]);
    }
  }

  lemma {:induction false} NothingWrittenIff(c: Codec, d: Draft, events: seq<Event>)
    requires d.entries == []
    ensures WriteEvents(c, d, events).entries == [] <==> forall e :: e in events ==> Trim(c, e.ticker) == []
  {
    if events != [] {
      var front, last := events[..|events| - 1], events[|events| - 1];
      NothingWrittenIff(c, d, front);
      assert events == front + [last];
      assert last in events;
    }
  }

  lemma IndexEmptyIff(raw: seq<IndexEntry>)
    ensures BuildIndex(raw) == [] <==> raw == []
  {
    SameElements(StableSort(TickerLess, raw), raw);
    KeepLastWithin(StableSort(TickerLess, raw));
  }

  /** The initial crawl fails with its first pass, or for want of a single ticker. */
  lemma InitialSucceeds(c: Codec, cycle: Cycle)
    ensures Compact(c, cycle, None).Ok? <==>
      && !PassFails(cycle.crawl.v1)
      && exists e :: e in CrawlEvents(cycle.crawl) && Trim(c, e.ticker) != []
  {
    hide WriteEvents;
    hide BuildIndex;
    NothingWrittenIff(c, MetaDraft(c, cycle.start), CrawlEvents(cycle.crawl));
    IndexEmptyIff(Crawled(c, cycle).entries);
  }

  /** An event the crawl itself stored is let go exactly when it is literally named "null"
      or its end date has passed by more than the grace period. */
  lemma CrawledRecordEvicted(c: Codec, e: Event, now: int)
    requires Printable(c, EventJson(e))
    ensures Evicted(c, Show(c, EventJson(e)), now) <==> e.ticker == NULL_TICKER || Expired(c, e, now)
  {
    EventJsonView(e);
  }

  /** What the stored record itself says of its end: nothing, a value that is no text, or a
      text, which may or may not be a time. */
  datatype End = NoEnd | NotText | At(time: int) | NoTime

  function EndOf(c: Codec, fields: map<Bytes, Json>): End {
    if Ascii("endDate") !in fields then NoEnd
    else
      match fields[Ascii("endDate")]
      case Null => NoEnd
      case Str(text) => (match ParseTime(c, text) case Some(t) => At(t) case None => NoTime)
      case _ => NotText
  }

  /** The fate of a record no longer crawled, read off the record: after a successful cycle it is
      gone if and only if it is named "null", its end date is a value that is neither null nor
      text, or its end date is a time more than 14400 seconds before the cycle's clock; and if
      it is not gone it is the same bytes. */
  lemma UncrawledRecordIff(c: Codec, cycle: Cycle, prev: Snapshot, t: Bytes)
    requires PrintableCycle(c, cycle) && ShortCycle(c, cycle) && Sound(c, prev) && t != [] && Trim(c, []) == []
    requires Compact(c, cycle, Some(prev)).Ok?
    requires LastCrawled(c, CrawlEvents(cycle.crawl), t).None? && Fetch(prev, t).Some?
    ensures var raw := Fetch(prev, t).value;
      && Parse(c, raw).Some? && Parse(c, raw).value.Obj? && Ascii("ticker") in Parse(c, raw).value.fields
      && var fields := Parse(c, raw).value.fields;
         var after := Fetch(Compact(c, cycle, Some(prev)).value, t);
      && (after.Some? ==> after == Some(raw))
      && (after.None? <==>
            || fields[Ascii("ticker")] == Str(Ascii("null"))
            || EndOf(c, fields).NotText?
            || (EndOf(c, fields).At? && EndOf(c, fields).time + 14400 < cycle.now))
  {
    RefreshedRecord(c, cycle, Some(prev), t);
    FoundRecord(c, prev, t);
    hide Compact;
    hide Sound;
    hide Fetch;
    EventOfIff(Parse(c, Fetch(prev, t).value).value);
  }

  /** What is served for a ticker is an object with a text ticker. */
  lemma FoundRecord(c: Codec, s: Snapshot, t: Bytes)
    requires Sound(c, s) && Fetch(s, t).Some? && Trim(c, []) == []
    ensures var v := Parse(c, Fetch(s, t).value);
      v.Some? && v.value.Obj? && TICKER in v.value.fields && v.value.fields[TICKER].Str?
  {
    hide Utf8;
    SoundReads(c, s, t);
    SoundRaw(c, s, Find(s, t).value);
  }

  // ---------------------------------------------------------------- whole runs

  /** A turn of the refresh loop; `ioFails` covers every failure outside the crawl. */
  datatype Attempt = Attempt(cycle: Cycle, ioFails: bool)

  predicate Succeeds(a: Attempt) {
    !a.ioFails && !PassFails(a.cycle.crawl.v1)
  }

  /** The loop body: swap in the new snapshot, or keep the previous one. */
  ghost function After(c: Codec, s: Snapshot, a: Attempt): Snapshot {
    if a.ioFails then s
    else
      match Compact(c, a.cycle, Some(s))
      case Ok(n) => n
      case Err(_) => s
  }

  ghost function Run(c: Codec, boot: Snapshot, attempts: seq<Attempt>): Snapshot {
    if attempts == [] then boot
    else After(c, Run(c, boot, attempts[..|attempts| - 1]), attempts[|attempts| - 1])
  }

  ghost predicate WellFed(c: Codec, attempts: seq<Attempt>) {
    forall a :: a in attempts ==> PrintableCycle(c, a.cycle) && ShortCycle(c, a.cycle)
  }

  lemma {:induction false} RunSound(c: Codec, boot: Snapshot, attempts: seq<Attempt>)
    requires Sound(c, boot) && WellFed(c, attempts)
    ensures Sound(c, Run(c, boot, attempts))
  {
    hide Sound;
    hide Compact;
    if attempts != [] {
      var front, a := attempts[..|attempts| - 1], attempts[|attempts| - 1];
      assert a in attempts;
      RunSound(c, boot, front);
      if After(c, Run(c, boot, front), a) != Run(c, boot, front) {
        CompactSound(c, a.cycle, Some(Run(c, boot, front)));
      }
    }
  }

  /** One turn of the loop, for one ticker. */
  lemma {:induction false} AfterRecord(c: Codec, s: Snapshot, a: Attempt, t: Bytes)
    requires Sound(c, s) && PrintableCycle(c, a.cycle) && ShortCycle(c, a.cycle) && t != []
    ensures Fetch(After(c, s, a), t) ==
      if !Succeeds(a) then Fetch(s, t)
      else if LastCrawled(c, CrawlEvents(a.cycle.crawl), t).Some?
      then Some(Show(c, EventJson(LastCrawled(c, CrawlEvents(a.cycle.crawl), t).value)))
      else if Fetch(s, t).Some? && !Evicted(c, Fetch(s, t).value, a.cycle.now) then Fetch(s, t)
      else None
  {
    hide Sound;
    hide Compact;
    hide Fetch;
    CompactSucceeds(c, a.cycle, s);
    if Succeeds(a) {
      RefreshedRecord(c, a.cycle, Some(s), t);
    }
  }

  /** A known ticker disappears in a turn exactly when the turn succeeds without crawling it
      and its stored record is one the database evicts. */
  lemma {:induction false} DisappearsIff(c: Codec, s: Snapshot, a: Attempt, t: Bytes)
    requires Sound(c, s) && PrintableCycle(c, a.cycle) && ShortCycle(c, a.cycle)
    requires t != [] && Fetch(s, t).Some?
    ensures Fetch(After(c, s, a), t).None? <==>
      && Succeeds(a)
      && LastCrawled(c, CrawlEvents(a.cycle.crawl), t).None?
      && Evicted(c, Fetch(s, t).value, a.cycle.now)
  {
    hide Fetch;
    AfterRecord(c, s, a, t);
  }

  /** The last successful attempt that crawled a ticker. */
  function LastCrawl(c: Codec, attempts: seq<Attempt>, t: Bytes): (r: Option<nat>)
    ensures r.Some? ==> r.value < |attempts|
  {
    if attempts == [] then None
    else
      var a := attempts[|attempts| - 1];
      if Succeeds(a) && LastCrawled(c, CrawlEvents(a.cycle.crawl), t).Some? then Some(|attempts| - 1)
      else LastCrawl(c, attempts[..|attempts| - 1], t)
  }

  /** Where a ticker's record comes from, and the first attempt that could evict it. */
  ghost function Origin(c: Codec, boot: Snapshot, attempts: seq<Attempt>, t: Bytes): (Option<Bytes>, nat) {
    match LastCrawl(c, attempts, t)
    case None => (Fetch(boot, t), 0)
    case Some(i) =>
      var e := LastCrawled(c, CrawlEvents(attempts[i].cycle.crawl), t);
      (if e.Some? then Some(Show(c, EventJson(e.value))) else None, i + 1)
  }

  ghost predicate Survives(c: Codec, attempts: seq<Attempt>, from: nat, raw: Bytes) {
    forall j :: from <= j < |attempts| && Succeeds(attempts[j]) ==> !Evicted(c, raw, attempts[j].cycle.now)
  }

  /** The record the history dictates for a ticker. */
  ghost function Dictated(c: Codec, boot: Snapshot, attempts: seq<Attempt>, t: Bytes): Option<Bytes> {
    var (record, from) := Origin(c, boot, attempts, t);
    if record.Some? && Survives(c, attempts, from, record.value) then record else None
  }

  lemma DictatedAtBoot(c: Codec, boot: Snapshot, t: Bytes)
    ensures Dictated(c, boot, [], t) == Fetch(boot, t)
  {
    hide Fetch;
  }

  /** One more attempt changes what is dictated just as the loop body changes what is served. */
  lemma DictatedOneMore(c: Codec, boot: Snapshot, attempts: seq<Attempt>, t: Bytes)
    requires attempts != []
    ensures var n := |attempts| - 1; var a := attempts[n]; var before := Dictated(c, boot, attempts[..n], t);
      Dictated(c, boot, attempts, t) ==
      if !Succeeds(a) then before
      else if LastCrawled(c, CrawlEvents(a.cycle.crawl), t).Some?
      then Some(Show(c, EventJson(LastCrawled(c, CrawlEvents(a.cycle.crawl), t).value)))
      else if before.Some? && !Evicted(c, before.value, a.cycle.now) then before
      else None
  {
    hide Fetch;
    hide Evicted;
    hide LastCrawled;
    hide Succeeds;
    var n := |attempts| - 1;
    var (record, from) := Origin(c, boot, attempts, t);
    if LastCrawl(c, attempts, t) != Some(n) {
      assert Origin(c, boot, attempts[..n], t) == (record, from);
      if record.Some? {
        SurvivesOneMore(c, attempts, from, record.value);
      }
    }
  }

  /** Over any run, with any crawls, clocks and failures: a ticker is served the last event
      of the last successful cycle that crawled it, or its boot record byte for byte, exactly
      as long as no later successful cycle found a reason to evict that record. */
  lemma {:induction false} WholeRun(c: Codec, boot: Snapshot, attempts: seq<Attempt>, t: Bytes)
    requires Sound(c, boot) && WellFed(c, attempts) && t != []
    ensures Fetch(Run(c, boot, attempts), t) == Dictated(c, boot, attempts, t)
  {
    hide Sound;
    hide Fetch;
    hide After;
    hide Dictated;
    if attempts == [] {
      DictatedAtBoot(c, boot, t);
    } else {
      var n := |attempts| - 1;
      var front, a := attempts[..n], attempts[n];
      assert a in attempts;
      WholeRun(c, boot, front, t);
      RunSound(c, boot, front);
      AfterRecord(c, Run(c, boot, front), a, t);
      DictatedOneMore(c, boot, attempts, t);
    }
  }

  lemma SurvivesOneMore(c: Codec, attempts: seq<Attempt>, from: nat, raw: Bytes)
    requires attempts != [] && from < |attempts|
    ensures var n := |attempts| - 1;
      Survives(c, attempts, from, raw) <==>
      Survives(c, attempts[..n], from, raw) && (Succeeds(attempts[n]) ==> !Evicted(c, raw, attempts[n].cycle.now))
  {
    hide Evicted;
    var n := |attempts| - 1;
    assert forall j :: 0 <= j < n ==> attempts[..n][j] == attempts[j];
  }

  /** "Nothing already known is ever evicted" fails for one concrete event: a record named
      "null" with no end date is gone after the next successful cycle that does not crawl it. */
  lemma NullTickerEvicted(c: Codec, boot: Snapshot, first: Attempt, second: Attempt)
    requires Sound(c, boot) && WellFed(c, [first, second]) && Trim(c, NULL_TICKER) == NULL_TICKER
    requires Succeeds(first) && Succeeds(second)
    requires CrawlEvents(first.cycle.crawl) == [Event(NULL_TICKER, None, map[])]
    requires CrawlEvents(second.cycle.crawl) == []
    ensures Fetch(Run(c, boot, [first]), NULL_TICKER).Some?
    ensures Fetch(Run(c, boot, [first, second]), NULL_TICKER).None?
  {
    hide Fetch;
    hide Evicted;
    hide Sound;
    hide Compact;
    var t, e := NULL_TICKER, Event(NULL_TICKER, None, map[]);
    assert |NULL_TICKER| == 4;
    assert [first, second][..1] == [first] && [first][..0] == [];
    assert first in [first, second] && second in [first, second];
    AfterRecord(c, boot, first, t);
    RunSound(c, boot, [first]);
    assert Run(c, boot, [first]) == After(c, boot, first);
    AfterRecord(c, Run(c, boot, [first]), second, t);
    assert e in CrawlEvents(first.cycle.crawl);
    CrawledRecordEvicted(c, e, second.cycle.now);
  }

  // ---------------------------------------------------------------- paging across an eviction

  lemma HeldIsFetched(c: Codec, s: Snapshot, e: IndexEntry)
    requires Sound(c, s) && e in s.index
    ensures e.ticker != [] && Fetch(s, e.ticker).Some?
  {
    hide Utf8;
    LastForUnique(s.index, e);
    FindIsLinearScan(s, e.ticker);
    SoundRaw(c, s, e);
  }

  lemma NotFetched(c: Codec, s: Snapshot, t: Bytes)
    requires Sound(c, s) && forall e :: e in s.index ==> e.ticker != t
    ensures Fetch(s, t).None?
  {
    hide AddressesRecord;
    FindIsLinearScan(s, t);
  }

  /** After a successful turn without events, everything held was held before and is not one
      to evict. */
  lemma QuietTurn(c: Codec, before: Snapshot, turn: Attempt, e: IndexEntry)
    requires Sound(c, before) && PrintableCycle(c, turn.cycle) && ShortCycle(c, turn.cycle)
    requires Succeeds(turn) && CrawlEvents(turn.cycle.crawl) == []
    requires e in After(c, before, turn).index
    ensures Fetch(before, e.ticker).Some? && !Evicted(c, Fetch(before, e.ticker).value, turn.cycle.now)
  {
    hide Sound;
    hide After;
    hide Fetch;
    hide Evicted;
    AfterSound(c, before, turn);
    HeldIsFetched(c, After(c, before, turn), e);
    AfterRecord(c, before, turn, e.ticker);
  }

  lemma AfterSound(c: Codec, s: Snapshot, a: Attempt)
    requires Sound(c, s) && PrintableCycle(c, a.cycle) && ShortCycle(c, a.cycle)
    ensures Sound(c, After(c, s, a))
  {
    hide Sound;
    hide Compact;
    if After(c, s, a) != s {
      CompactSound(c, a.cycle, Some(s));
    }
  }

  /** "Without skipping" fails for a client that asks for one ticker at a time: its first
      request is served from a database of two tickers; a turn that crawls nothing finds the
      second one's end date long past; and its second request ends the walk without it. */
  lemma EvictedTickerSkipped(c: Codec, before: Snapshot, start: nat, now: int)
    requires Sound(c, before) && |before.index| == 2
    requires var cycle := Cycle(Crawl([], None), start, now); PrintableCycle(c, cycle) && ShortCycle(c, cycle)
    requires var record := Fetch(before, before.index[1].ticker); record.Some? && Evicted(c, record.value, now)
    ensures var after := After(c, before, Attempt(Cycle(Crawl([], None), start, now), false));
      var walk := PageThrough([Request(before, Some(1)), Request(after, Some(1))], None);
      walk.finished && walk.used == 2 && Holds(before, before.index[1].ticker) && before.index[1].ticker !in walk.seen
  {
    hide Sound;
    hide After;
    hide Fetch;
    hide Evicted;
    hide PageThrough;
    hide PrintableCycle;
    hide ShortCycle;
    var turn := Attempt(Cycle(Crawl([], None), start, now), false);
    var after := After(c, before, turn);
    assert StrictlySorted(before.index) by { SoundIsSorted(c, before); }
    AfterSound(c, before, turn);
    assert StrictlySorted(after.index) by { SoundIsSorted(c, after); }
    forall e | e in after.index ensures e.ticker == before.index[0].ticker {
      QuietTurn(c, before, turn, e);
      if e.ticker != before.index[0].ticker && e.ticker != before.index[1].ticker {
        NotFetched(c, before, e.ticker);
      }
    }
    TwoRequests(before, after);
    assert before.index[1] in before.index;
  }
}
