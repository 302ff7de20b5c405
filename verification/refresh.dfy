/** The refresh as the program runs it (`full_crawl_and_compact`, `merge_carry_forward` in
    `src/refresh.rs`): records streamed to a file that may fill up at any byte, a running
    offset, and a two-pointer walk over the old index. */
module Refresh {
  import opened ByteStrings
  import opened Outcomes
  import opened Records
  import opened Sorting
  import opened Log
  import opened Database
  import opened Compaction

  /** The staging file.  `capacity` stands for every way a write can fail: it is where the
      device stops accepting bytes. */
  class LogWriter {
    var bytes: Bytes
    const capacity: nat

    constructor (capacity: nat)
      ensures bytes == [] && this.capacity == capacity
    {
      bytes := [];
      this.capacity := capacity;
    }

    /** All of `data` or, on failure, as much of it as fits. */
    method WriteAll(data: Bytes) returns (ok: bool)
      requires |bytes| <= capacity
      modifies this
      ensures ok <==> |old(bytes)| + |data| <= capacity
      ensures bytes == (old(bytes) + data)[..if ok then |old(bytes)| + |data| else capacity]
    {
      ok := |bytes| + |data| <= capacity;
      bytes := (bytes + data)[..if ok then |bytes| + |data| else capacity];
    }

    /** A record and its newline. */
    method WriteLine(content: Bytes) returns (ok: bool)
      requires |bytes| <= capacity
      modifies this
      ensures |bytes| <= capacity
      ensures ok <==> |old(bytes)| + |content| + 1 <= capacity
      ensures ok ==> bytes == AppendLine(old(bytes), content)
    {
      ok := WriteAll(content);
      if ok {
        ok := WriteAll([NEWLINE]);
      }
    }
  }

  // ---------------------------------------------------------------- merging the old records

  datatype Merge = Merge(entries: seq<IndexEntry>, offset: nat, carried: nat, pruned: nat)

  /** The pointer has passed every fresh ticker below `t`. */
  ghost predicate Passed(entries: seq<IndexEntry>, j: nat, t: Bytes) {
    && j <= |entries|
    && forall k :: 0 <= k < j ==> Less(entries[k].ticker, t)
  }

  /** A pointer that has passed everything below `t` and stops there decides membership. */
  lemma PointerDecides(entries: seq<IndexEntry>, j: nat, t: Bytes)
    requires StrictlySorted(entries) && Passed(entries, j, t)
    requires j < |entries| ==> !Less(entries[j].ticker, t)
    ensures LastFor(entries, t).Some? <==> j < |entries| && entries[j].ticker == t
  {
    if LastFor(entries, t).Some? {
      var e := LastFor(entries, t).value;
      var k :| 0 <= k < |entries| && entries[k] == e;
      LessIrreflexive(t);
      if j < k {
        LessTrichotomy(entries[j].ticker, entries[k].ticker);
      }
    }
  }

  lemma PassedGrows(entries: seq<IndexEntry>, j: nat, t: Bytes, u: Bytes)
    requires Passed(entries, j, t) && Less(t, u)
    ensures Passed(entries, j, u)
  {
    forall k | 0 <= k < j ensures Less(entries[k].ticker, u) {
      LessTransitive(entries[k].ticker, t, u);
    }
  }

  predicate IsPruned(f: Fate) { f.Pruned? }

  predicate IsCarried(f: Fate) { f.Carried? }

  predicate IsRecrawled(f: Fate) { f.Recrawled? }

  predicate IsDropped(f: Fate) { f.Dropped? }

  /** The walk's variables after `i` old entries: bytes, carried entries and prune count are
      those of the entry-by-entry specification, and every record went in whole. */
  ghost predicate MergedSoFar(c: Codec, start: Bytes, entries: seq<IndexEntry>, prev: Snapshot, now: int, i: nat,
                              bytes: Bytes, carried: seq<IndexEntry>, pruned: nat)
  {
    && i <= |prev.index|
    && CarryOld(c, start, entries, prev, now, i) == Draft(bytes, carried)
    && pruned == CountFate(c, entries, prev, now, i, IsPruned)
    && Readable(c, entries, prev, now, i)
  }

  lemma MergeStarts(c: Codec, start: Bytes, entries: seq<IndexEntry>, prev: Snapshot, now: int)
    ensures MergedSoFar(c, start, entries, prev, now, 0, start, [], 0)
  {}

  lemma MergedStep(c: Codec, start: Bytes, entries: seq<IndexEntry>, prev: Snapshot, now: int, i: nat,
                   bytes: Bytes, carried: seq<IndexEntry>, pruned: nat)
    requires MergedSoFar(c, start, entries, prev, now, i, bytes, carried, pruned) && i < |prev.index|
    ensures var e := prev.index[i];
      match FateOf(c, entries, prev, e, now)
      case Unreadable => true
      case Pruned => MergedSoFar(c, start, entries, prev, now, i + 1, bytes, carried, pruned + 1)
      case Carried(raw) =>
        var d := AddRecord(Draft(bytes, carried), e.ticker, raw);
        MergedSoFar(c, start, entries, prev, now, i + 1, d.bytes, d.entries, pruned)
      case _ => MergedSoFar(c, start, entries, prev, now, i + 1, bytes, carried, pruned)
  {
    hide FateOf;
  }

  lemma {:induction false} CarryOldGrows(c: Codec, start: Bytes, entries: seq<IndexEntry>, prev: Snapshot,
                                         now: int, i: nat, n: nat)
    requires i <= n <= |prev.index|
    ensures |CarryOld(c, start, entries, prev, now, i).bytes| <= |CarryOld(c, start, entries, prev, now, n).bytes|
    decreases n
  {
    hide FateOf;
    if i < n {
      CarryOldGrows(c, start, entries, prev, now, i, n - 1);
    }
  }

  lemma {:induction false} CarriedCount(c: Codec, start: Bytes, entries: seq<IndexEntry>, prev: Snapshot,
                                        now: int, n: nat)
    requires n <= |prev.index|
    ensures |CarryOld(c, start, entries, prev, now, n).entries| == CountFate(c, entries, prev, now, n, IsCarried)
  {
    hide FateOf;
    if n > 0 {
      CarriedCount(c, start, entries, prev, now, n - 1);
    }
  }

  /** Two-pointer merge.  It succeeds exactly when every record to carry can be read and the
      file has room, and then it has written and indexed what the entry-by-entry
      specification says, with the offset still counting the bytes written. */
  method MergeCarryForward(c: Codec, w: LogWriter, entries: seq<IndexEntry>, prev: Snapshot, offset: nat, now: int)
    returns (r: Result<Merge, Error>)
    requires StrictlySorted(entries) && StrictlySorted(prev.index)
    requires offset == |w.bytes| <= w.capacity
    modifies w
    ensures |w.bytes| <= w.capacity
    ensures var n := |prev.index|; var d := CarryOld(c, old(w.bytes), entries, prev, now, n);
      && (r.Ok? <==> Readable(c, entries, prev, now, n) && |d.bytes| <= w.capacity)
      && (r.Ok? ==>
            && w.bytes == d.bytes
            && r.value.entries == StableSort(TickerLess, entries + d.entries)
            && r.value.offset == |w.bytes|
            && r.value.carried == CountFate(c, entries, prev, now, n, IsCarried)
            && r.value.pruned == CountFate(c, entries, prev, now, n, IsPruned))
  {
    hide CarryOld;
    hide CountFate;
    hide StableSort;
    hide LastFor;
    var j, pruned, at := 0, 0, offset;
    var carried: seq<IndexEntry> := [];
    ghost var start := w.bytes;
    MergeStarts(c, start, entries, prev, now);
    var i := 0;
    while i < |prev.index|
      invariant MergedSoFar(c, start, entries, prev, now, i, w.bytes, carried, pruned)
      invariant at == |w.bytes| <= w.capacity
      invariant i < |prev.index| ==> Passed(entries, j, prev.index[i].ticker)
      invariant j <= |entries|
    {
      var e := prev.index[i];
      while j < |entries| && Less(entries[j].ticker, e.ticker)
        invariant Passed(entries, j, e.ticker)
      {
        j := j + 1;
      }
      PointerDecides(entries, j, e.ticker);
      MergedStep(c, start, entries, prev, now, i, w.bytes, carried, pruned);
      if i + 1 < |prev.index| {
        PassedGrows(entries, j, e.ticker, prev.index[i + 1].ticker);
      }
      var present := j < |entries| && entries[j].ticker == e.ticker;
      if !present {
        var keep := true;
        var value := ReadValue(c, prev.file, e);
        if value.Some? {
          var event := EventOf(value.value);
          if event.None? || event.value.ticker == NULL_TICKER {
            keep := false;
          } else if Expired(c, event.value, now) {
            keep, pruned := false, pruned + 1;
          }
        }
        if keep {
          var raw := ReadRaw(prev.file, e);
          if raw.None? {
            return Err(ReadFailed);
          }
          CarryOldGrows(c, start, entries, prev, now, i + 1, |prev.index|);
          var ok := w.WriteLine(raw.value);
          if !ok {
            return Err(DiskFull);
          }
          carried := carried + [IndexEntry(e.ticker, at, AsU32(|raw.value|))];
          at := at + |raw.value| + 1;
        }
      }
      i := i + 1;
    }
    CarriedCount(c, start, entries, prev, now, |prev.index|);
    r := Ok(Merge(StableSort(TickerLess, entries + carried), at, |carried|, pruned));
  }

  lemma SoundIsReadable(c: Codec, entries: seq<IndexEntry>, prev: Snapshot, e: IndexEntry, now: int)
    requires Sound(c, prev) && e in prev.index
    ensures FateOf(c, entries, prev, e, now) != Unreadable
  {
    SoundRaw(c, prev, e);
  }

  /** The walk splits the old index: every entry is recrawled, carried, pruned or dropped,
      and on a sound snapshot none is unreadable. */
  lemma {:induction false} FatesPartition(c: Codec, entries: seq<IndexEntry>, prev: Snapshot, now: int, n: nat)
    requires n <= |prev.index| && Sound(c, prev)
    ensures n == CountFate(c, entries, prev, now, n, IsRecrawled) + CountFate(c, entries, prev, now, n, IsCarried)
               + CountFate(c, entries, prev, now, n, IsPruned) + CountFate(c, entries, prev, now, n, IsDropped)
    ensures Readable(c, entries, prev, now, n)
  {
    hide Sound;
    hide FateOf;
    if n > 0 {
      FatesPartition(c, entries, prev, now, n - 1);
      SoundIsReadable(c, entries, prev, prev.index[n - 1], now);
    }
  }

  // ---------------------------------------------------------------- the crawl

  lemma {:induction false} WriteEventsAppend(c: Codec, d: Draft, a: seq<Event>, b: seq<Event>)
    ensures WriteEvents(c, d, a + b) == WriteEvents(c, WriteEvents(c, d, a), b)
  {
    hide WriteEvent;
    if b == [] {
      assert a + b == a;
    } else {
      assert (a + b)[..|a + b| - 1] == a + b[..|b| - 1];
      WriteEventsAppend(c, d, a, b[..|b| - 1]);
    }
  }

  lemma {:induction false} WriteEventsGrows(c: Codec, d: Draft, events: seq<Event>)
    ensures |d.bytes| <= |WriteEvents(c, d, events).bytes|
  {
    if events != [] {
      WriteEventsGrows(c, d, events[..|events| - 1]);
    }
  }

  /** Writing part of a run never takes more room than writing all of it. */
  lemma PartFits(c: Codec, d: Draft, part: seq<Event>, rest: seq<Event>)
    ensures |WriteEvents(c, d, part).bytes| <= |WriteEvents(c, d, part + rest).bytes|
  {
    WriteEventsAppend(c, d, part, rest);
    WriteEventsGrows(c, WriteEvents(c, d, part), rest);
  }

  /** One page of events, straight to the file.  It fails exactly when the file has no room
      for all of them. */
  method WritePage(c: Codec, w: LogWriter, events: seq<Event>, entries: seq<IndexEntry>, offset: nat)
    returns (ok: bool, entries': seq<IndexEntry>, offset': nat)
    requires offset == |w.bytes| <= w.capacity
    modifies w
    ensures |w.bytes| <= w.capacity
    ensures var d := WriteEvents(c, Draft(old(w.bytes), entries), events);
      && (ok <==> |d.bytes| <= w.capacity)
      && (ok ==> Draft(w.bytes, entries') == d && offset' == |w.bytes|)
  {
    ghost var start := Draft(w.bytes, entries);
    entries', offset' := entries, offset;
    assert events[..0] == [];
    for i := 0 to |events|
      invariant offset' == |w.bytes| <= w.capacity
      invariant Draft(w.bytes, entries') == WriteEvents(c, start, events[..i])
    {
      assert events[..i + 1][..i] == events[..i];
      assert events == events[..i + 1] + events[i + 1..];
      PartFits(c, start, events[..i + 1], events[i + 1..]);
      var ticker := Trim(c, events[i].ticker);
      if ticker != [] {
        var json := Show(c, EventJson(events[i]));
        ok := w.WriteLine(json);
        if !ok {
          return;
        }
        entries' := entries' + [IndexEntry(ticker, offset', AsU32(|json|))];
        offset' := offset' + |json| + 1;
      }
    }
    assert events[..|events|] == events;
    ok := true;
  }

  lemma {:induction false} PassEventsAppend(a: seq<Page>, b: seq<Page>)
    requires Failed !in a
    ensures PassEvents(a + b) == PassEvents(a) + PassEvents(b)
  {
    if a == [] {
      assert a + b == b;
    } else {
      assert a[0] in a && (a + b)[0] == a[0];
      assert (a + b)[1..] == a[1..] + b;
      PassEventsAppend(a[1..], b);
      assert a[0].events + (PassEvents(a[1..]) + PassEvents(b)) == (a[0].events + PassEvents(a[1..])) + PassEvents(b);
    }
  }

  lemma PassEventsOne(page: Page, after: seq<Page>)
    ensures PassEvents([page]) == if page.Events? then page.events else []
    ensures page.Failed? ==> PassEvents([page] + after) == []
  {
    assert [page][1..] == [];
  }

  /** A failed page ends the pass. */
  lemma PassEndsAtFailure(before: seq<Page>, after: seq<Page>)
    requires Failed !in before
    ensures PassEvents(before + ([Failed] + after)) == PassEvents(before)
  {
    hide PassEvents;
    PassEventsAppend(before, [Failed] + after);
    PassEventsOne(Failed, after);
  }

  /** A page's events extend the pass. */
  lemma PassEventsExtend(before: seq<Page>, page: Page, after: seq<Page>)
    requires Failed !in before && page.Events?
    ensures PassEvents(before + [page]) == PassEvents(before) + page.events
    ensures PassEvents((before + [page]) + after) == PassEvents(before + [page]) + PassEvents(after)
  {
    PassEventsAppend(before, [page]);
    PassEventsOne(page, after);
    PassEventsAppend(before + [page], after);
  }

  lemma PassEventsAtFailure(pages: seq<Page>, i: nat)
    requires i < |pages| && Failed !in pages[..i] && pages[i].Failed?
    ensures PassEvents(pages) == PassEvents(pages[..i])
  {
    hide PassEvents;
    SplitAt(pages, i);
    PassEndsAtFailure(pages[..i], pages[i + 1..]);
  }

  lemma PassEventsAt(pages: seq<Page>, i: nat)
    requires i < |pages| && Failed !in pages[..i] && pages[i].Events?
    ensures PassEvents(pages[..i + 1]) == PassEvents(pages[..i]) + pages[i].events
    ensures PassEvents(pages) == PassEvents(pages[..i + 1]) + PassEvents(pages[i + 1..])
  {
    hide PassEvents;
    SplitAt(pages, i);
    PassEventsExtend(pages[..i], pages[i], pages[i + 1..]);
  }

  /** One pass of the crawl.  A failed page ends a tolerant pass and fails a strict one. */
  method CrawlPass(c: Codec, w: LogWriter, pages: seq<Page>, tolerant: bool, entries: seq<IndexEntry>, offset: nat)
    returns (error: Option<Error>, entries': seq<IndexEntry>, offset': nat)
    requires offset == |w.bytes| <= w.capacity
    modifies w
    ensures |w.bytes| <= w.capacity
    ensures var d := WriteEvents(c, Draft(old(w.bytes), entries), PassEvents(pages));
      && (error.None? <==> (tolerant || !PassFails(pages)) && |d.bytes| <= w.capacity)
      && (error.None? ==> Draft(w.bytes, entries') == d && offset' == |w.bytes|)
  {
    hide WriteEvents;
    ghost var start := Draft(w.bytes, entries);
    entries', offset' := entries, offset;
    PassStarts(c, start, pages);
    for i := 0 to |pages|
      invariant offset' == |w.bytes| <= w.capacity
      invariant Failed !in pages[..i]
      invariant Draft(w.bytes, entries') == WriteEvents(c, start, PassEvents(pages[..i]))
    {
      match pages[i] {
        case Failed =>
          PassEventsAtFailure(pages, i);
          assert PassFails(pages);
          return if tolerant then None else Some(CrawlFailed), entries', offset';
        case Events(events) =>
          PassEventsAt(pages, i);
          WriteEventsAppend(c, start, PassEvents(pages[..i]), events);
          PartFits(c, start, PassEvents(pages[..i + 1]), PassEvents(pages[i + 1..]));
          var ok;
          ok, entries', offset' := WritePage(c, w, events, entries', offset');
          if !ok {
            return Some(DiskFull), entries', offset';
          }
          assert pages[..i + 1] == pages[..i] + [pages[i]];
      }
    }
    assert pages[..|pages|] == pages;
    error := None;
  }

  lemma PassStarts(c: Codec, d: Draft, pages: seq<Page>)
    ensures WriteEvents(c, d, PassEvents(pages[..0])) == d
  {}

  // ---------------------------------------------------------------- the whole cycle

  /** The refresh, on a newly created staging file.  It succeeds exactly when the cycle's
      outcome is a snapshot whose log fits the device, and then the file holds that log and
      the snapshot returned is that outcome. */
  method FullCrawlAndCompact(c: Codec, w: LogWriter, cycle: Cycle, prev: Option<Snapshot>)
    returns (r: Result<Snapshot, Error>)
    requires w.bytes == []
    requires prev.Some? ==> StrictlySorted(prev.value.index)
    modifies w
    ensures r.Ok? <==> Compact(c, cycle, prev).Ok? && |Compact(c, cycle, prev).value.file| <= w.capacity
    ensures r.Ok? ==> r == Compact(c, cycle, prev) && w.bytes == r.value.file
  {
    hide WriteEvents;
    hide CarryOld;
    hide BuildIndex;
    var metaLine := Show(c, MetaJson(cycle.start));
    ghost var meta := MetaDraft(c, cycle.start);
    ghost var v1 := PassEvents(cycle.crawl.v1);
    ghost var v2 := if cycle.crawl.v2.Some? then PassEvents(cycle.crawl.v2.value) else [];
    WriteEventsAppend(c, meta, v1, v2);
    WriteEventsGrows(c, meta, v1);
    WriteEventsGrows(c, WriteEvents(c, meta, v1), v2);
    if prev.Some? {
      CarryOldGrows(c, Crawled(c, cycle).bytes, Latest(c, cycle), prev.value, cycle.now, 0, |prev.value.index|);
      CarryNothing(c, Crawled(c, cycle).bytes, Latest(c, cycle), prev.value, cycle.now);
    }
    var ok := w.WriteLine(metaLine);
    if !ok {
      return Err(DiskFull);
    }
    var entries: seq<IndexEntry>, offset := [], |metaLine| + 1;
    var error;
    error, entries, offset := CrawlPass(c, w, cycle.crawl.v1, false, entries, offset);
    if error.Some? {
      return Err(error.value);
    }
    if cycle.crawl.v2.Some? {
      error, entries, offset := CrawlPass(c, w, cycle.crawl.v2.value, true, entries, offset);
      if error.Some? {
        return Err(error.value);
      }
    } else {
      WriteNothing(c, Draft(w.bytes, entries));
    }
    assert Draft(w.bytes, entries) == Crawled(c, cycle);
    var sorted := StableSort(TickerLess, entries);
    entries := DedupeKeepLast(sorted);
    assert entries == Latest(c, cycle) by { BuildIndexIs(Crawled(c, cycle).entries); }
    if prev.None? {
      if entries == [] {
        return Err(EmptyCrawl);
      }
    } else {
      assert StrictlySorted(entries) by { BuildIndexCorrect(Crawled(c, cycle).entries); }
      var merge := MergeCarryForward(c, w, entries, prev.value, offset, cycle.now);
      if merge.Err? {
        return Err(merge.error);
      }
      entries := merge.value.entries;
    }
    r := Ok(Snapshot(entries, w.bytes, AsU32(|entries|), cycle.start, DB_FORMAT_VERSION));
  }

  lemma WriteNothing(c: Codec, d: Draft)
    ensures WriteEvents(c, d, []) == d
  {}

  lemma CarryNothing(c: Codec, start: Bytes, entries: seq<IndexEntry>, prev: Snapshot, now: int)
    ensures CarryOld(c, start, entries, prev, now, 0) == Draft(start, [])
  {}

  lemma BuildIndexIs(raw: seq<IndexEntry>)
    ensures BuildIndex(raw) == KeepLast(StableSort(TickerLess, raw))
  {}
}
