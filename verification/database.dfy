/** Loading a log, point lookup and positioned reads (`Snapshot` in `src/database.rs`),
    against a plain scan of the log's lines. */
module Database {
  import opened ByteStrings
  import opened Outcomes
  import opened Records
  import opened Sorting
  import opened Log

  // ---------------------------------------------------------------- loading

  /** What loading a file means: fail on invalid UTF-8, else index its complete lines. */
  function Load(c: Codec, file: Bytes, mtime: nat): Result<Snapshot, Error> {
    if !Utf8(file) then Err(InvalidUtf8)
    else
      var index := BuildIndex(Entries(c, Lines(file)));
      var (builtAt, formatVersion) := Header(c, Lines(file), mtime);
      Ok(Snapshot(index, file, AsU32(|index|), builtAt, formatVersion))
  }

  /** `out` and the open run's `current` are what keeping the last of each run makes of the
      first `i` entries. */
  ghost predicate RunOpen(entries: seq<IndexEntry>, i: nat, out: seq<IndexEntry>, current: IndexEntry) {
    && 0 < i <= |entries|
    && current == entries[i - 1]
    && KeepLast(entries[..i]) == out + [current]
  }

  lemma RunOpens(entries: seq<IndexEntry>, i: nat)
    requires i < |entries|
    requires 0 < i ==> entries[i - 1].ticker != entries[i].ticker
    ensures RunOpen(entries, i + 1, KeepLast(entries[..i]), entries[i])
  {
    assert entries[..i + 1][..i] == entries[..i];
    KeepLastWithin(entries[..i]);
  }

  lemma RunContinues(entries: seq<IndexEntry>, i: nat, out: seq<IndexEntry>, current: IndexEntry)
    requires RunOpen(entries, i, out, current) && i < |entries| && entries[i].ticker == current.ticker
    ensures RunOpen(entries, i + 1, out, entries[i])
  {
    assert entries[..i + 1][..i] == entries[..i];
  }

  method DedupeKeepLast(entries: seq<IndexEntry>) returns (out: seq<IndexEntry>)
    ensures out == KeepLast(entries)
  {
    out := [];
    var i := 0;
    while i < |entries|
      invariant i <= |entries|
      invariant out == KeepLast(entries[..i])
      invariant 0 < i < |entries| ==> entries[i - 1].ticker != entries[i].ticker
    {
      var current := entries[i];
      RunOpens(entries, i);
      i := i + 1;
      while i < |entries| && entries[i].ticker == current.ticker
        invariant RunOpen(entries, i, out, current)
      {
        RunContinues(entries, i, out, current);
        current := entries[i];
        i := i + 1;
      }
      out := out + [current];
    }
    assert entries[..i] == entries;
  }

  /** The scan's variables: raw entries, build time, format version. */
  datatype Scan = Scan(entries: seq<IndexEntry>, builtAt: nat, formatVersion: nat)

  function ScanOf(c: Codec, done: seq<Line>, mtime: nat): Scan {
    var (builtAt, formatVersion) := Header(c, done, mtime);
    Scan(Entries(c, done), builtAt, formatVersion)
  }

  /** One more line: meta data, a record, or skipped. */
  function AddLine(c: Codec, s: Scan, l: Line): Scan {
    if IsMetaLine(c, l) then
      var v := Parse(c, l.content).value;
      Scan(s.entries, if MetaBuiltAt(v).Some? then MetaBuiltAt(v).value else s.builtAt, MetaVersion(v))
    else if EntryOf(c, l).Some? then s.(entries := s.entries + [EntryOf(c, l).value])
    else s
  }

  lemma AddLineIsScan(c: Codec, done: seq<Line>, l: Line, mtime: nat)
    requires l.offset == 0 <==> done == []
    ensures AddLine(c, ScanOf(c, done, mtime), l) == ScanOf(c, done + [l], mtime)
  {
    assert (done + [l])[..|done|] == done;
  }

  /** The outcome of scanning on from `offset`: nothing if the rest is not valid text. */
  function ScanOn(c: Codec, file: Bytes, offset: nat, s: Scan): Option<Scan>
    requires offset <= |file|
    decreases |file| - offset
  {
    var e := LineEnd(file, offset);
    if !Utf8(file[offset..e]) then None
    else if e == |file| then Some(s)
    else ScanOn(c, file, e + 1, AddLine(c, s, Line(offset, file[offset..e])))
  }

  lemma {:induction false} ScanOnIsScan(c: Codec, file: Bytes, offset: nat, done: seq<Line>, mtime: nat)
    requires Scanned(file, offset, done)
    ensures ScanOn(c, file, offset, ScanOf(c, done, mtime)) ==
      if Utf8(file) then Some(ScanOf(c, Lines(file), mtime)) else None
    decreases |file| - offset
  {
    hide Utf8;
    hide LineEnd;
    var e := LineEnd(file, offset);
    if e == |file| {
      assert file[offset..e] == file[offset..];
      assert LinesFrom(file, offset) == [];
      assert Lines(file) == done;
    } else {
      var l := Line(offset, file[offset..e]);
      ScanStep(file, offset, done);
      if Utf8(l.content) {
        AddLineIsScan(c, done, l, mtime);
        ScanOnIsScan(c, file, e + 1, done + [l], mtime);
      }
    }
  }

  lemma ScanOnEnds(c: Codec, file: Bytes, s: Scan)
    ensures ScanOn(c, file, |file|, s) == Some(s)
  {
    assert file[|file|..|file|] == [];
  }

  method FromFile(c: Codec, file: Bytes, mtime: nat) returns (r: Result<Snapshot, Error>)
    ensures r == Load(c, file, mtime)
  {
    hide Utf8;
    hide LineEnd;
    var builtAt, formatVersion := mtime, 0;
    var entries: seq<IndexEntry> := [];
    var offset := 0;
    ghost var whole := ScanOn(c, file, 0, Scan([], mtime, 0));
    assert whole == if Utf8(file) then Some(ScanOf(c, Lines(file), mtime)) else None by {
      ScanStarts(file);
      ScanOnIsScan(c, file, 0, [], mtime);
    }
    while offset < |file|
      invariant offset <= |file|
      invariant whole == ScanOn(c, file, offset, Scan(entries, builtAt, formatVersion))
    {
      var e := LineEnd(file, offset);
      var content := file[offset..e];
      if !Utf8(content) {
        return Err(InvalidUtf8);
      }
      if e == |file| {
        // A torn final line: decoded as text, then dropped.
        break;
      }
      match Parse(c, content) {
        case Some(value) =>
          if offset == 0 && IsMeta(value) {
            if MetaBuiltAt(value).Some? {
              builtAt := MetaBuiltAt(value).value;
            }
            formatVersion := MetaVersion(value);
          } else {
            var ticker := TickerOf(c, value);
            if ticker != [] {
              entries := entries + [IndexEntry(ticker, offset, AsU32(|content|))];
            }
          }
        case None =>
      }
      offset := e + 1;
    }
    ScanOnEnds(c, file, Scan(entries, builtAt, formatVersion));
    assert whole == Some(Scan(entries, builtAt, formatVersion));
    var sorted := StableSort(TickerLess, entries);
    var index := DedupeKeepLast(sorted);
    r := Ok(Snapshot(index, file, AsU32(|index|), builtAt, formatVersion));
  }

  // ---------------------------------------------------------------- lookup and reads

  /** Binary search among `index[lo..hi]`. */
  function Search(index: seq<IndexEntry>, t: Bytes, lo: nat, hi: nat): (r: Option<nat>)
    requires lo <= hi <= |index|
    ensures r.Some? ==> lo <= r.value < hi && index[r.value].ticker == t
    decreases hi - lo
  {
    if lo == hi then None
    else
      var mid := (lo + hi) / 2;
      if index[mid].ticker == t then Some(mid)
      else if Less(index[mid].ticker, t) then Search(index, t, mid + 1, hi)
      else Search(index, t, lo, mid)
  }

  function Find(s: Snapshot, t: Bytes): Option<IndexEntry> {
    match Search(s.index, t, 0, |s.index|)
    case Some(i) => Some(s.index[i])
    case None => None
  }

  /** `read_exact_at`: fails past the end, except for an empty buffer. */
  function ReadRaw(file: Bytes, e: IndexEntry): Option<Bytes> {
    if e.len == 0 then Some([])
    else if e.offset + e.len <= |file| then Some(file[e.offset..e.offset + e.len])
    else None
  }

  function ReadValue(c: Codec, file: Bytes, e: IndexEntry): Option<Json> {
    match ReadRaw(file, e)
    case Some(raw) => Parse(c, raw)
    case None => None
  }

  /** The bytes served for a ticker. */
  function Fetch(s: Snapshot, t: Bytes): Option<Bytes> {
    match Find(s, t)
    case Some(e) => ReadRaw(s.file, e)
    case None => None
  }

  lemma {:induction false} SearchMisses(index: seq<IndexEntry>, t: Bytes, lo: nat, hi: nat)
    requires StrictlySorted(index) && lo <= hi <= |index|
    requires Search(index, t, lo, hi).None?
    ensures forall i :: lo <= i < hi ==> index[i].ticker != t
    decreases hi - lo
  {
    if lo < hi {
      var mid := (lo + hi) / 2;
      LessTrichotomy(index[mid].ticker, t);
      if Less(index[mid].ticker, t) {
        SearchMisses(index, t, mid + 1, hi);
        forall i | lo <= i < mid ensures index[i].ticker != t {
          LessTrichotomy(index[i].ticker, index[mid].ticker);
        }
      } else {
        assert Less(t, index[mid].ticker);
        SearchMisses(index, t, lo, mid);
        forall i | mid < i < hi ensures index[i].ticker != t {
          LessTrichotomy(index[mid].ticker, index[i].ticker);
        }
      }
    }
  }

  /** In a strictly sorted index the only entry with a ticker is the last one. */
  lemma LastForUnique(index: seq<IndexEntry>, e: IndexEntry)
    requires StrictlySorted(index) && e in index
    ensures LastFor(index, e.ticker) == Some(e)
  {
    var f := LastFor(index, e.ticker).value;
    var i :| 0 <= i < |index| && index[i] == e;
    var j :| 0 <= j < |index| && index[j] == f;
    if i < j {
      LessTrichotomy(index[i].ticker, index[j].ticker);
    } else if j < i {
      LessTrichotomy(index[j].ticker, index[i].ticker);
    }
  }

  /** Binary search refines the linear scan. */
  lemma FindIsLinearScan(s: Snapshot, t: Bytes)
    requires StrictlySorted(s.index)
    ensures Find(s, t) == LastFor(s.index, t)
  {
    match Search(s.index, t, 0, |s.index|)
    case Some(i) => LastForUnique(s.index, s.index[i]);
    case None => SearchMisses(s.index, t, 0, |s.index|);
  }

  // ---------------------------------------------------------------- agreement with the log

  /** The last line that is a well-formed record of `t`, by scanning from the end. */
  function LastLine(c: Codec, ls: seq<Line>, t: Bytes): (r: Option<Line>)
    ensures r.Some? ==> r.value in ls
  {
    if ls == [] then None
    else
      assert ls == ls[..|ls| - 1] + [ls[|ls| - 1]];
      var e := EntryOf(c, ls[|ls| - 1]);
      if e.Some? && e.value.ticker == t then Some(ls[|ls| - 1])
      else LastLine(c, ls[..|ls| - 1], t)
  }

  function IsRecordOf(c: Codec, t: Bytes): Line -> bool {
    (l: Line) => EntryOf(c, l).Some? && EntryOf(c, l).value.ticker == t
  }

  /** Last means that no later line is a record of the ticker. */
  lemma {:induction false} LastLineIff(c: Codec, ls: seq<Line>, t: Bytes, l: Line)
    ensures LastLine(c, ls, t) == Some(l) <==> IsLast(ls, IsRecordOf(c, t), l)
  {
    hide EntryOf;
    if ls != [] {
      LastLineIff(c, ls[..|ls| - 1], t, l);
      LastOneMore(ls[..|ls| - 1], IsRecordOf(c, t), ls[|ls| - 1], l);
      assert ls == ls[..|ls| - 1] + [ls[|ls| - 1]];
    }
  }

  lemma {:induction false} LastForIsLastLine(c: Codec, ls: seq<Line>, t: Bytes)
    ensures LastFor(Entries(c, ls), t) ==
      match LastLine(c, ls, t)
      case Some(l) => Some(IndexEntry(t, l.offset, AsU32(|l.content|)))
      case None => None
  {
    if ls != [] {
      LastForIsLastLine(c, ls[..|ls| - 1], t);
      var front := Entries(c, ls[..|ls| - 1]);
      match EntryOf(c, ls[|ls| - 1]) {
        case Some(e) => assert (front + [e])[..|front|] == front;
        case None =>
      }
    }
  }

  lemma {:induction false} LastLineIsRecord(c: Codec, ls: seq<Line>, t: Bytes)
    ensures LastLine(c, ls, t).Some? ==> EntryOf(c, LastLine(c, ls, t).value).Some?
  {
    if ls != [] {
      LastLineIsRecord(c, ls[..|ls| - 1], t);
    }
  }

  lemma ReadLine(file: Bytes, l: Line, n: nat, t: Bytes)
    requires LineIn(file, l) && n <= |l.content|
    ensures ReadRaw(file, IndexEntry(t, l.offset, n)) == Some(l.content[..n])
  {
    assert file[l.offset..l.offset + n] == file[l.offset..l.offset + |l.content|][..n];
  }

  lemma LoadedFind(c: Codec, file: Bytes, mtime: nat, t: Bytes)
    requires Load(c, file, mtime).Ok?
    ensures Find(Load(c, file, mtime).value, t) == LastFor(Entries(c, Lines(file)), t)
  {
    BuildIndexCorrect(Entries(c, Lines(file)));
    FindIsLinearScan(Load(c, file, mtime).value, t);
  }

  /** The loaded index refines a linear scan of the file: a lookup followed by a read
      returns the last record of the ticker, cut at its length modulo 2^32. */
  lemma LoadedFetch(c: Codec, file: Bytes, mtime: nat, t: Bytes)
    requires Load(c, file, mtime).Ok?
    ensures Fetch(Load(c, file, mtime).value, t) ==
      match LastLine(c, Lines(file), t)
      case Some(l) => Some(l.content[..AsU32(|l.content|)])
      case None => None
  {
    LoadedFind(c, file, mtime, t);
    LastForIsLastLine(c, Lines(file), t);
    match LastLine(c, Lines(file), t) {
      case Some(l) =>
        LinesAreIn(file, 0);
        ReadLine(file, l, AsU32(|l.content|), t);
      case None =>
    }
  }

  /** The 32-bit length field is harmless exactly for records shorter than 2^32 bytes. */
  lemma FetchIsWholeRecordIff(c: Codec, file: Bytes, mtime: nat, t: Bytes)
    requires Load(c, file, mtime).Ok? && LastLine(c, Lines(file), t).Some?
    ensures var record := LastLine(c, Lines(file), t).value.content;
      Fetch(Load(c, file, mtime).value, t) == Some(record) <==> |record| < U32_MODULUS
  {
    LoadedFetch(c, file, mtime, t);
    var record := LastLine(c, Lines(file), t).value.content;
    if |record| < U32_MODULUS {
      assert record[..AsU32(|record|)] == record;
    } else {
      assert |record[..AsU32(|record|)]| < |record|;
    }
  }

  /** A record padded with spaces, which mean nothing to a JSON parser, to 2^32 bytes. */
  function Padded(record: Bytes): Bytes
    requires |record| <= U32_MODULUS
  {
    record + seq(U32_MODULUS - |record|, i => 32)
  }

  lemma {:induction false} SpacesAreUtf8(s: Bytes)
    requires forall b :: b in s ==> b == 32
    ensures Utf8(s)
  {
    if s != [] {
      assert s[0] in s && forall b :: b in s[1..] ==> b in s;
      SpacesAreUtf8(s[1..]);
    }
  }

  lemma PaddedIsText(record: Bytes)
    requires |record| <= U32_MODULUS && Utf8(record) && NEWLINE !in record
    ensures Utf8(Padded(record)) && NEWLINE !in Padded(record) && |Padded(record)| == U32_MODULUS
  {
    hide Utf8;
    var spaces := seq(U32_MODULUS - |record|, i => 32);
    assert Utf8(spaces) by { SpacesAreUtf8(spaces); }
    Utf8Append(record, spaces);
  }

  /** Text without a line feed, byte 10, and a line feed after it: one line. */
  lemma OneLine(content: Bytes)
    requires 10 !in content
    ensures Lines(content + [10]) == [Line(0, content)]
  {
    var file := content + [NEWLINE];
    hide LineEnd;
    LineEndUnique(file, 0, |content|);
    LineEndUnique(file, |file|, |file|);
    assert LinesFrom(file, |file|) == [];
    assert file[0..|content|] == content;
  }

  lemma OneLineIsText(content: Bytes)
    requires Utf8(content)
    ensures Utf8(content + [NEWLINE])
  {
    assert Utf8([NEWLINE]);
    Utf8Append(content, [NEWLINE]);
  }

  /** A record that is lost to the length field: padded to 2^32 bytes it is indexed, and read
      back as no bytes at all. */
  lemma LongRecordLost(c: Codec, record: Bytes, mtime: nat)
    requires |record| <= U32_MODULUS && Utf8(record) && NEWLINE !in record
    requires Parse(c, Padded(record)) == Parse(c, record)
    requires Parse(c, record).Some? && !IsMeta(Parse(c, record).value)
    requires TickerOf(c, Parse(c, record).value) != []
    ensures var file := Padded(record) + [NEWLINE]; var t := TickerOf(c, Parse(c, record).value);
      Load(c, file, mtime).Ok? && Fetch(Load(c, file, mtime).value, t) == Some([])
  {
    hide Utf8;
    hide Padded;
    hide Fetch;
    hide Lines;
    var content, t := Padded(record), TickerOf(c, Parse(c, record).value);
    PaddedIsText(record);
    OneLine(content);
    OneLineIsText(content);
    LoadedFetch(c, content + [NEWLINE], mtime, t);
    assert content[..AsU32(|content|)] == [];
  }

  // ---------------------------------------------------------------- sound snapshots

  /** An index entry that addresses one whole record of its ticker. */
  ghost predicate AddressesRecord(c: Codec, file: Bytes, e: IndexEntry) {
    && e.offset + e.len <= |file|
    && e.len < U32_MODULUS
    && var raw := file[e.offset..e.offset + e.len];
      NEWLINE !in raw && Utf8(raw)
      && Parse(c, raw).Some? && e.ticker == TickerOf(c, Parse(c, raw).value) != []
  }

  /** The pairing of index and file every reader relies on. */
  ghost predicate Sound(c: Codec, s: Snapshot) {
    && StrictlySorted(s.index)
    && s.lines == AsU32(|s.index|)
    && forall e :: e in s.index ==> AddressesRecord(c, s.file, e)
  }

  /** Records short enough for the index's 32-bit length. */
  ghost predicate ShortRecords(c: Codec, file: Bytes) {
    forall l :: l in Lines(file) && EntryOf(c, l).Some? ==> |l.content| < U32_MODULUS
  }

  lemma {:induction false} EntriesComeFromLines(c: Codec, ls: seq<Line>)
    ensures forall e :: e in Entries(c, ls) ==> exists l :: l in ls && EntryOf(c, l) == Some(e)
  {
    if ls != [] {
      var front, last := ls[..|ls| - 1], ls[|ls| - 1];
      EntriesComeFromLines(c, front);
      forall e | e in Entries(c, ls) ensures exists l :: l in ls && EntryOf(c, l) == Some(e) {
        if e in Entries(c, front) {
          var l :| l in front && EntryOf(c, l) == Some(e);
          assert l in ls;
        } else {
          assert last in ls && EntryOf(c, last) == Some(e);
        }
      }
    }
  }

  lemma LineAddressesRecord(c: Codec, file: Bytes, l: Line, e: IndexEntry)
    requires LineIn(file, l) && Utf8(l.content) && |l.content| < U32_MODULUS
    requires EntryOf(c, l) == Some(e)
    ensures AddressesRecord(c, file, e)
  {
    hide Utf8;
    assert e.offset == l.offset && e.len == |l.content|;
  }

  /** Loading pairs every index entry with exactly the record it was made from. */
  lemma LoadSound(c: Codec, file: Bytes, mtime: nat)
    requires Load(c, file, mtime).Ok? && ShortRecords(c, file)
    ensures Sound(c, Load(c, file, mtime).value)
  {
    var ls := Lines(file);
    BuildIndexCorrect(Entries(c, ls));
    EntriesComeFromLines(c, ls);
    LinesAreIn(file, 0);
    assert file[0..] == file;
    LinesUtf8(file, 0);
    forall e | e in BuildIndex(Entries(c, ls)) ensures AddressesRecord(c, file, e) {
      var l :| l in ls && EntryOf(c, l) == Some(e);
      LineAddressesRecord(c, file, l, e);
    }
  }

  /** On a sound snapshot a lookup never fails to read and never reads another ticker's
      record. */
  lemma SoundReads(c: Codec, s: Snapshot, t: Bytes)
    requires Sound(c, s) && Find(s, t).Some?
    ensures var e := Find(s, t).value;
      && e.offset + e.len <= |s.file|
      && ReadRaw(s.file, e) == Some(s.file[e.offset..e.offset + e.len])
      && ReadValue(c, s.file, e).Some?
      && TickerOf(c, ReadValue(c, s.file, e).value) == t
      && NEWLINE !in ReadRaw(s.file, e).value
  {
    hide Utf8;
    FindIsLinearScan(s, t);
    var e := Find(s, t).value;
    assert AddressesRecord(c, s.file, e);
    if e.len == 0 {
      assert s.file[e.offset..e.offset + e.len] == [];
    }
  }

  // ---------------------------------------------------------------- torn tails

  /** The lines that end before position `k`. */
  function EndingBy(ls: seq<Line>, k: nat): seq<Line> {
    if ls == [] then []
    else (if ls[0].offset + |ls[0].content| < k then [ls[0]] else []) + EndingBy(ls[1..], k)
  }

  lemma {:induction false} NoneEndingBy(file: Bytes, p: nat, k: nat)
    requires k <= p <= |file|
    ensures EndingBy(LinesFrom(file, p), k) == []
    decreases |file| - p
  {
    var e := LineEnd(file, p);
    if e < |file| {
      NoneEndingBy(file, e + 1, k);
      assert LinesFrom(file, p)[1..] == LinesFrom(file, e + 1);
    }
  }

  lemma LineEndUnique(file: Bytes, p: nat, e: nat)
    requires p <= e <= |file|
    requires forall i :: p <= i < e ==> file[i] != NEWLINE
    requires e < |file| ==> file[e] == NEWLINE
    ensures LineEnd(file, p) == e
  {}

  lemma FirstEndsBy(l: Line, rest: seq<Line>, k: nat)
    ensures EndingBy([l] + rest, k) == (if l.offset + |l.content| < k then [l] else []) + EndingBy(rest, k)
  {
    assert ([l] + rest)[1..] == rest;
  }

  lemma LineComplete(file: Bytes, p: nat, k: nat)
    requires p <= k <= |file| && LineEnd(file, p) < k
    ensures LineEnd(file[..k], p) == LineEnd(file, p)
    ensures var e := LineEnd(file, p); file[..k][p..e] == file[p..e]
  {
    LineEndUnique(file[..k], p, LineEnd(file, p));
  }

  lemma {:induction false} LinesOfCut(file: Bytes, p: nat, k: nat)
    requires p <= k <= |file|
    ensures LinesFrom(file[..k], p) == EndingBy(LinesFrom(file, p), k)
    decreases |file| - p
  {
    hide LineEnd;
    hide EndingBy;
    var e := LineEnd(file, p);
    if k <= e {
      LineEndUnique(file[..k], p, k);
      if e < |file| {
        FirstEndsBy(Line(p, file[p..e]), LinesFrom(file, e + 1), k);
        NoneEndingBy(file, e + 1, k);
      } else {
        NothingEndsBy(k);
      }
    } else {
      LineComplete(file, p, k);
      LinesOfCut(file, e + 1, k);
      FirstEndsBy(Line(p, file[p..e]), LinesFrom(file, e + 1), k);
    }
  }

  lemma NothingEndsBy(k: nat)
    ensures EndingBy([], k) == []
  {}

  /** A log cut at any position loads exactly when the cut falls on a character boundary,
      and then its index is that of the lines complete before the cut, at the same offsets. */
  lemma {:induction false} TornTail(c: Codec, file: Bytes, k: nat, mtime: nat)
    requires Utf8(file) && k <= |file|
    ensures Load(c, file[..k], mtime).Ok? <==> CharBoundary(file, k)
    ensures CharBoundary(file, k) ==>
      Load(c, file[..k], mtime).value.index == BuildIndex(Entries(c, EndingBy(Lines(file), k)))
  {
    Utf8Cut(file, k);
    LinesOfCut(file, 0, k);
  }

  /** A log that is lost to a torn tail: whatever valid log comes before, a last line that holds
      the two-byte character C3 A9, cut between its bytes, fails the whole load. */
  lemma TornInsideCharacter(c: Codec, log: Bytes, mtime: nat)
    requires Utf8(log)
    ensures var file := log + [0xC3, 0xA9, 10];
      && Load(c, file, mtime).Ok?
      && Load(c, file[..|log| + 1], mtime) == Err(InvalidUtf8)
  {
    var file := log + [0xC3, 0xA9, 10];
    TwoByteLine();
    hide Utf8;
    Utf8Append(log, [0xC3, 0xA9, 10]);
    Utf8Cut(file, |log| + 1);
    assert Continuation(file[|log| + 1]);
  }

  lemma TwoByteLine()
    ensures Utf8([0xC3, 0xA9, 10])
  {
    var s: Bytes, newline: Bytes := [0xC3, 0xA9, 10], [10];
    assert s[2..] == newline && newline[1..] == [];
    assert Utf8(newline);
  }
}
