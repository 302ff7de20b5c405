/** The on-disk log and its in-memory index (`src/database.rs`): scanning, sorting,
    deduplication, point lookup and positioned reads. */
module Log {
  import opened ByteStrings
  import opened Outcomes
  import opened Records
  import opened Sorting

  datatype IndexEntry = IndexEntry(ticker: Bytes, offset: nat, len: nat)

  /** `file` is the content of the inode the snapshot's descriptor keeps open; module
      Store shows that it never changes while the snapshot lives. */
  datatype Snapshot = Snapshot(index: seq<IndexEntry>, file: Bytes, lines: nat, builtAt: nat, formatVersion: nat)

  datatype Error = InvalidUtf8 | CrawlFailed | EmptyCrawl | ReadFailed | DiskFull

  // ---------------------------------------------------------------- lines

  /** A newline-terminated line: where it starts and what it holds before the newline. */
  datatype Line = Line(offset: nat, content: Bytes)

  /** The position of the first newline at or after `p`, or the end of the file. */
  function LineEnd(file: Bytes, p: nat): (e: nat)
    requires p <= |file|
    ensures p <= e <= |file|
    ensures forall i :: p <= i < e ==> file[i] != NEWLINE
    ensures e < |file| ==> file[e] == NEWLINE
    decreases |file| - p
  {
    if p == |file| || file[p] == NEWLINE then p else LineEnd(file, p + 1)
  }

  /** The complete lines of the file from position `p` on. */
  function LinesFrom(file: Bytes, p: nat): seq<Line>
    requires p <= |file|
    decreases |file| - p
  {
    var e := LineEnd(file, p);
    if e == |file| then [] else [Line(p, file[p..e])] + LinesFrom(file, e + 1)
  }

  function Lines(file: Bytes): seq<Line> {
    LinesFrom(file, 0)
  }

  predicate LineIn(file: Bytes, l: Line) {
    && l.offset + |l.content| < |file|
    && file[l.offset..l.offset + |l.content|] == l.content
    && file[l.offset + |l.content|] == NEWLINE
    && NEWLINE !in l.content
  }

  lemma {:induction false} LinesAreIn(file: Bytes, p: nat)
    requires p <= |file|
    ensures forall l :: l in LinesFrom(file, p) ==> p <= l.offset && LineIn(file, l)
    decreases |file| - p
  {
    var e := LineEnd(file, p);
    if e < |file| {
      LinesAreIn(file, e + 1);
      assert LineIn(file, Line(p, file[p..e]));
    }
  }

  /** A newline ends a character, so text splits there. */
  lemma Utf8SplitLine(file: Bytes, p: nat, e: nat)
    requires p <= e < |file| && file[e] == NEWLINE
    ensures Utf8(file[p..]) <==> Utf8(file[p..e]) && Utf8(file[e + 1..])
  {
    var rest := file[p..];
    Utf8SplitAtNewline(rest, e - p);
    assert rest[..e - p] == file[p..e];
    assert rest[e - p + 1..] == file[e + 1..];
  }

  lemma {:induction false} LinesUtf8(file: Bytes, p: nat)
    requires p <= |file| && Utf8(file[p..])
    ensures forall l :: l in LinesFrom(file, p) ==> Utf8(l.content)
    decreases |file| - p
  {
    hide Utf8;
    var e := LineEnd(file, p);
    if e < |file| {
      Utf8SplitLine(file, p, e);
      LinesUtf8(file, e + 1);
    }
  }

  /** `done` are the lines before `offset`, and all of them are valid text. */
  ghost predicate Scanned(file: Bytes, offset: nat, done: seq<Line>) {
    && offset <= |file|
    && Lines(file) == done + LinesFrom(file, offset)
    && (Utf8(file) <==> Utf8(file[offset..]))
    && (offset == 0 <==> done == [])
  }

  lemma ScanStarts(file: Bytes)
    ensures Scanned(file, 0, [])
  {
    assert file[0..] == file;
  }

  lemma ScanStep(file: Bytes, offset: nat, done: seq<Line>)
    requires Scanned(file, offset, done) && LineEnd(file, offset) < |file|
    ensures var e := LineEnd(file, offset); var content := file[offset..e];
      && (!Utf8(content) ==> !Utf8(file))
      && (Utf8(content) ==> Scanned(file, e + 1, done + [Line(offset, content)]))
  {
    hide Utf8;
    var e := LineEnd(file, offset);
    Utf8SplitLine(file, offset, e);
    assert done + ([Line(offset, file[offset..e])] + LinesFrom(file, e + 1))
        == done + [Line(offset, file[offset..e])] + LinesFrom(file, e + 1);
  }

  // ---------------------------------------------------------------- records

  predicate IsMetaLine(c: Codec, l: Line) {
    l.offset == 0 && Parse(c, l.content).Some? && IsMeta(Parse(c, l.content).value)
  }

  /** The index entry a line contributes, if it is a well-formed record. */
  function EntryOf(c: Codec, l: Line): Option<IndexEntry> {
    match Parse(c, l.content)
    case None => None
    case Some(v) =>
      if IsMetaLine(c, l) || TickerOf(c, v) == [] then None
      else Some(IndexEntry(TickerOf(c, v), l.offset, AsU32(|l.content|)))
  }

  /** The fields of the object a line holds, if it holds one. */
  function FieldsOf(c: Codec, l: Line): Option<map<Bytes, Json>> {
    match Parse(c, l.content)
    case Some(Obj(fields)) => Some(fields)
    case _ => None
  }

  /** Marked as meta data, at the start of the file. */
  predicate MarkedMeta(l: Line, fields: map<Bytes, Json>) {
    l.offset == 0 && Ascii("__apdb_meta__") in fields && fields[Ascii("__apdb_meta__")] == Bool(true)
  }

  /** Which lines are indexed, and as what, read off the JSON: those that hold an object with a
      text ticker that is not blank and that is not the meta line. */
  lemma IndexedIff(c: Codec, l: Line)
    requires Trim(c, []) == []
    ensures EntryOf(c, l).Some? <==>
      && FieldsOf(c, l).Some?
      && var fields := FieldsOf(c, l).value;
         && !MarkedMeta(l, fields)
         && Ascii("ticker") in fields && fields[Ascii("ticker")].Str? && Trim(c, fields[Ascii("ticker")].text) != []
    ensures EntryOf(c, l).Some? ==>
      EntryOf(c, l).value
        == IndexEntry(Trim(c, FieldsOf(c, l).value[Ascii("ticker")].text), l.offset, |l.content| % 0x1_0000_0000)
  {}

  function U64Field(fields: map<Bytes, Json>, name: Bytes): Option<nat> {
    if name in fields && fields[name].Num? && 0 <= fields[name].n < 0x1_0000_0000_0000_0000
    then Some(fields[name].n) else None
  }

  /** What the first line says of the whole file: a meta line gives the build time it carries,
      or leaves the fallback, and the version it carries in 32 bits, or 1; without a meta line
      the fallback and version 0 stand. */
  lemma HeaderIs(c: Codec, ls: seq<Line>, mtime: nat)
    ensures var (builtAt, version) := Header(c, ls, mtime);
      if ls != [] && FieldsOf(c, ls[0]).Some? && MarkedMeta(ls[0], FieldsOf(c, ls[0]).value) then
        var fields := FieldsOf(c, ls[0]).value;
        && (match U64Field(fields, Ascii("built_at_unix")) case Some(n) => builtAt == n case None => builtAt == mtime)
        && (match U64Field(fields, Ascii("format_version"))
            case Some(n) => version == n % 0x1_0000_0000
            case None => version == 1)
      else builtAt == mtime && version == 0
  {}

  function Entries(c: Codec, ls: seq<Line>): seq<IndexEntry> {
    if ls == [] then []
    else
      var front := Entries(c, ls[..|ls| - 1]);
      match EntryOf(c, ls[|ls| - 1])
      case Some(e) => front + [e]
      case None => front
  }

  lemma {:induction false} EntriesAppend(c: Codec, a: seq<Line>, b: seq<Line>)
    ensures Entries(c, a + b) == Entries(c, a) + Entries(c, b)
  {
    if b == [] {
      assert a + b == a;
    } else {
      assert (a + b)[..|a + b| - 1] == a + b[..|b| - 1];
      EntriesAppend(c, a, b[..|b| - 1]);
    }
  }

  /** Build time and format version: from the meta line, or the fallback and 0. */
  function Header(c: Codec, ls: seq<Line>, mtime: nat): (nat, nat) {
    if ls != [] && IsMetaLine(c, ls[0]) then
      var v := Parse(c, ls[0].content).value;
      (if MetaBuiltAt(v).Some? then MetaBuiltAt(v).value else mtime, MetaVersion(v))
    else (mtime, 0)
  }

  // ---------------------------------------------------------------- index

  predicate TickerLess(a: IndexEntry, b: IndexEntry) {
    Less(a.ticker, b.ticker)
  }

  predicate StrictlySorted(s: seq<IndexEntry>) {
    forall i, j :: 0 <= i < j < |s| ==> Less(s[i].ticker, s[j].ticker)
  }

  /** The linear-scan meaning of a lookup: the last entry with the ticker. */
  function LastFor(s: seq<IndexEntry>, t: Bytes): (r: Option<IndexEntry>)
    ensures r.Some? ==> r.value in s && r.value.ticker == t
    ensures r.None? ==> forall e :: e in s ==> e.ticker != t
  {
    if s == [] then None
    else
      assert s == s[..|s| - 1] + [s[|s| - 1]];
      if s[|s| - 1].ticker == t then Some(s[|s| - 1]) else LastFor(s[..|s| - 1], t)
  }

  function HasTicker(t: Bytes): IndexEntry -> bool { (e: IndexEntry) => e.ticker == t }

  /** Last means that no later entry has the ticker. */
  lemma {:induction false} LastForIff(s: seq<IndexEntry>, t: Bytes, e: IndexEntry)
    ensures LastFor(s, t) == Some(e) <==> IsLast(s, HasTicker(t), e)
  {
    if s != [] {
      LastForIff(s[..|s| - 1], t, e);
      LastOneMore(s[..|s| - 1], HasTicker(t), s[|s| - 1], e);
      assert s == s[..|s| - 1] + [s[|s| - 1]];
    }
  }

  /** The last entry of every run of equal tickers. */
  function KeepLast(s: seq<IndexEntry>): (r: seq<IndexEntry>) {
    if s == [] then []
    else
      var front, last := KeepLast(s[..|s| - 1]), s[|s| - 1];
      if front != [] && front[|front| - 1].ticker == last.ticker
      then front[..|front| - 1] + [last]
      else front + [last]
  }

  lemma {:induction false} KeepLastWithin(s: seq<IndexEntry>)
    ensures forall e :: e in KeepLast(s) ==> e in s
    ensures s != [] ==> KeepLast(s) != [] && KeepLast(s)[|KeepLast(s)| - 1] == s[|s| - 1]
  {
    if s != [] {
      KeepLastWithin(s[..|s| - 1]);
      assert s == s[..|s| - 1] + [s[|s| - 1]];
    }
  }

  function BuildIndex(raw: seq<IndexEntry>): seq<IndexEntry> {
    KeepLast(StableSort(TickerLess, raw))
  }

  lemma TickerLessIsStrictWeak()
    ensures StrictWeak(TickerLess)
  {
    forall a: IndexEntry ensures !TickerLess(a, a) {
      LessIrreflexive(a.ticker);
    }
    forall a: IndexEntry, b: IndexEntry, d: IndexEntry | TickerLess(a, b) && TickerLess(b, d) ensures TickerLess(a, d) {
      LessTransitive(a.ticker, b.ticker, d.ticker);
    }
    forall a: IndexEntry, b: IndexEntry, d: IndexEntry | TickerLess(a, b) ensures TickerLess(a, d) || TickerLess(d, b) {
      if !Less(a.ticker, d.ticker) {
        LessAtMostTransitive(d.ticker, a.ticker, b.ticker);
      }
    }
  }

  /** Lookups see only the entries tied with the ticker, so a stable sort keeps them. */
  lemma {:induction false} LastForIsLastTied(s: seq<IndexEntry>, x: IndexEntry)
    ensures var tied := TiedWith(TickerLess, s, x);
      LastFor(s, x.ticker) == if tied == [] then None else Some(tied[|tied| - 1])
  {
    if s != [] {
      LastForIsLastTied(s[..|s| - 1], x);
      LessTrichotomy(s[|s| - 1].ticker, x.ticker);
    }
  }

  lemma LastForOneMore(s: seq<IndexEntry>, e: IndexEntry, t: Bytes)
    ensures LastFor(s + [e], t) == if e.ticker == t then Some(e) else LastFor(s, t)
  {
    assert (s + [e])[..|s|] == s;
  }

  lemma {:induction false} KeepLastAnswers(s: seq<IndexEntry>, t: Bytes)
    ensures LastFor(KeepLast(s), t) == LastFor(s, t)
  {
    hide LastFor;
    if s != [] {
      var front, last := s[..|s| - 1], s[|s| - 1];
      var k := KeepLast(front);
      KeepLastAnswers(front, t);
      LastForOneMore(front, last, t);
      assert s == front + [last];
      if k != [] && k[|k| - 1].ticker == last.ticker {
        var shorter := k[..|k| - 1];
        assert k == shorter + [k[|k| - 1]];
        LastForOneMore(shorter, k[|k| - 1], t);
        LastForOneMore(shorter, last, t);
      } else {
        LastForOneMore(k, last, t);
      }
    }
  }

  lemma StrictlySortedAppend(s: seq<IndexEntry>, e: IndexEntry)
    requires StrictlySorted(s)
    requires s != [] ==> Less(s[|s| - 1].ticker, e.ticker)
    ensures StrictlySorted(s + [e])
  {
    forall i | 0 <= i < |s| ensures Less(s[i].ticker, e.ticker) {
      if i < |s| - 1 {
        LessTransitive(s[i].ticker, s[|s| - 1].ticker, e.ticker);
      }
    }
  }

  lemma {:induction false} KeepLastSorted(s: seq<IndexEntry>)
    requires Sorted(TickerLess, s)
    ensures StrictlySorted(KeepLast(s))
  {
    if s != [] {
      var front, last := s[..|s| - 1], s[|s| - 1];
      KeepLastSorted(front);
      KeepLastWithin(front);
      var k := KeepLast(front);
      if k == [] {
      } else if k[|k| - 1].ticker == last.ticker {
        StrictlySortedAppend(k[..|k| - 1], last);
      } else {
        assert !TickerLess(s[|s| - 1], s[|s| - 2]);
        LessTrichotomy(k[|k| - 1].ticker, last.ticker);
        StrictlySortedAppend(k, last);
      }
    }
  }

  /** Stability in terms of lookups. */
  lemma SortAnswers(raw: seq<IndexEntry>, t: Bytes)
    ensures LastFor(StableSort(TickerLess, raw), t) == LastFor(raw, t)
  {
    hide StableSort;
    TickerLessIsStrictWeak();
    StableSortCorrect(TickerLess, raw);
    var x := IndexEntry(t, 0, 0);
    LastForIsLastTied(StableSort(TickerLess, raw), x);
    LastForIsLastTied(raw, x);
  }

  /** An index is strictly sorted by ticker and answers every lookup as the raw entries do. */
  lemma BuildIndexCorrect(raw: seq<IndexEntry>)
    ensures StrictlySorted(BuildIndex(raw))
    ensures forall t :: LastFor(BuildIndex(raw), t) == LastFor(raw, t)
    ensures forall e :: e in BuildIndex(raw) ==> e in raw
  {
    hide StableSort;
    TickerLessIsStrictWeak();
    StableSortCorrect(TickerLess, raw);
    var sorted := StableSort(TickerLess, raw);
    KeepLastSorted(sorted);
    KeepLastWithin(sorted);
    SameElements(sorted, raw);
    forall t ensures LastFor(BuildIndex(raw), t) == LastFor(raw, t) {
      KeepLastAnswers(sorted, t);
      SortAnswers(raw, t);
    }
  }

  lemma {:induction false} StrictlySortedTied(s: seq<IndexEntry>, x: IndexEntry)
    requires StrictlySorted(s)
    ensures TiedWith(TickerLess, s, x) == match LastFor(s, x.ticker) case Some(e) => [e] case None => []
  {
    if s != [] {
      var front, last := s[..|s| - 1], s[|s| - 1];
      StrictlySortedTied(front, x);
      LessTrichotomy(last.ticker, x.ticker);
      if last.ticker == x.ticker {
        forall e | e in front ensures e.ticker != x.ticker {
          LessTrichotomy(e.ticker, last.ticker);
        }
      }
    }
  }

  /** Strictly sorted indexes that answer every lookup alike are the same index. */
  lemma IndexExtensional(a: seq<IndexEntry>, b: seq<IndexEntry>)
    requires StrictlySorted(a) && StrictlySorted(b)
    requires forall t :: LastFor(a, t) == LastFor(b, t)
    ensures a == b
  {
    TickerLessIsStrictWeak();
    forall x: IndexEntry ensures TiedWith(TickerLess, a, x) == TiedWith(TickerLess, b, x) {
      assert LastFor(a, x.ticker) == LastFor(b, x.ticker);
      StrictlySortedTied(a, x);
      StrictlySortedTied(b, x);
    }
    StrictlySortedIsSorted(a);
    StrictlySortedIsSorted(b);
    StableSortUnique(TickerLess, a, b);
  }

  lemma StrictlySortedIsSorted(s: seq<IndexEntry>)
    requires StrictlySorted(s)
    ensures Sorted(TickerLess, s)
  {
    forall i, j | 0 <= i < j < |s| ensures !TickerLess(s[j], s[i]) {
      LessTrichotomy(s[i].ticker, s[j].ticker);
    }
  }
}
