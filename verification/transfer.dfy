/** Moving a database to another machine: the sender's chunked stream and accept loop
    (`src/p2p_db_server.rs`) and the receiver's staged, validated install
    (`src/mesh_sync.rs`). */
module Transfer {
  import opened ByteStrings
  import opened Outcomes
  import opened Records
  import opened Log
  import opened Database
  import opened Compaction
  import opened Refresh

  // ---------------------------------------------------------------- gzip as a framing

  /** A gzip member (section 2.3 of RFC 1952): its trailer holds the CRC32 and the size of
      the payload, so a reader gets the whole payload or an error. */
  datatype Gzip = Gzip(encode: Bytes -> Bytes, decode: Bytes -> Option<Bytes>)

  function Encode(g: Gzip, payload: Bytes): Bytes { g.encode(payload) }

  function Decode(g: Gzip, wire: Bytes): Option<Bytes> { g.decode(wire) }

  /** The hypothesis on the gzip library, for one payload: its frame decodes to it, and no
      frame cut short decodes at all. */
  ghost predicate Framed(g: Gzip, payload: Bytes) {
    && Decode(g, Encode(g, payload)) == Some(payload)
    && forall w :: w < Encode(g, payload) ==> Decode(g, w).None?
  }

  // ---------------------------------------------------------------- the sender

  const TRANSFER_CHUNK_BYTES := 256 * 1024

  /** `read_at` into a buffer of `room` bytes: at least one byte while any is left, but
      possibly fewer than asked for. */
  function ReadAt(file: Bytes, pos: nat, room: nat, short: nat): (r: Bytes)
    requires pos <= |file| && room > 0
    ensures |r| <= room && pos + |r| <= |file| && r == file[pos..pos + |r|]
    ensures |r| == 0 <==> pos == |file|
  {
    var most := if room < |file| - pos then room else |file| - pos;
    var n := if short < most then short else most;
    if n == 0 && most > 0 then file[pos..pos + 1] else file[pos..pos + n]
  }

  function Min(a: nat, b: nat): nat {
    if a < b then a else b
  }

  /** The capacity of a `BufWriter`. */
  const WRITE_BUFFER := 8 * 1024

  /** What a `BufWriter` holding `pending` bytes does with `len` more: how many it takes and how
      many it then holds.  Bytes that fill the buffer push out what it holds; as many as the
      buffer is big go straight to the connection, which may take only `accepted` of them. */
  function WriteStep(pending: nat, len: nat, accepted: nat): (r: (nat, nat))
    requires pending <= WRITE_BUFFER && len > 0
    ensures 0 < r.0 <= len && r.1 <= WRITE_BUFFER && r.1 <= pending + r.0
  {
    if len < WRITE_BUFFER - pending then (len, pending + len)
    else
      var held := if len > WRITE_BUFFER - pending then 0 else pending;
      if len >= WRITE_BUFFER then (if 0 < accepted < len then accepted else len, held)
      else (len, held + len)
  }

  /** The peer's connection behind a `BufWriter`; it breaks after `capacity` bytes. */
  class Connection {
    var sent: Bytes
    var pending: Bytes
    const capacity: nat

    ghost predicate Valid()
      reads this
    {
      |sent| <= capacity && |pending| <= WRITE_BUFFER
    }

    constructor (capacity: nat)
      ensures Valid() && sent == [] && pending == [] && this.capacity == capacity
    {
      sent, pending := [], [];
      this.capacity := capacity;
    }

    /** All of `data`, or as much of it as the connection still takes. */
    method Put(data: Bytes) returns (ok: bool)
      requires |sent| <= capacity
      modifies this`sent
      ensures ok <==> |old(sent)| + |data| <= capacity
      ensures sent == (old(sent) + data)[..Min(capacity, |old(sent)| + |data|)]
    {
      ok := |sent| + |data| <= capacity;
      sent := (sent + data)[..Min(capacity, |sent| + |data|)];
    }

    /** A buffered write.  It fails exactly when it has to push out more than the connection
        takes. */
    method Write(data: Bytes, accepted: nat) returns (ok: bool, taken: nat)
      requires Valid() && data != []
      modifies this
      ensures Valid()
      ensures var (n, held) := WriteStep(|old(pending)|, |data|, accepted);
        && (ok <==> |old(sent)| + |old(pending)| + n - held <= capacity)
        && (ok ==> taken == n && |pending| == held && sent + pending == old(sent) + old(pending) + data[..n])
      ensures !ok ==> sent == (old(sent) + old(pending) + data)[..capacity]
    {
      ok, taken := true, |data|;
      if |data| < WRITE_BUFFER - |pending| {
        pending := pending + data;
        return;
      }
      if |data| > WRITE_BUFFER - |pending| {
        ok := Put(pending);
        if !ok {
          return;
        }
        pending := [];
      }
      if |data| >= WRITE_BUFFER {
        taken := if 0 < accepted < |data| then accepted else |data|;
        ok := Put(data[..taken]);
      } else {
        pending := pending + data;
      }
    }

    /** Dropping the buffer pushes out what it holds, and whether that worked is not told. */
    method Drop()
      requires Valid()
      modifies this
      ensures sent == (old(sent) + old(pending))[..Min(capacity, |old(sent)| + |old(pending)|)]
    {
      var _ := Put(pending);
    }
  }

  /** How a frame of `total` bytes leaves the encoder: how many bytes it hands over at a
      position, and how many of them a direct write takes. */
  datatype Pieces = Pieces(offered: nat -> nat, accepted: nat -> nat)

  function Offered(pieces: Pieces, at: nat, total: nat): (n: nat)
    requires at < total
    ensures 0 < n <= total - at
  {
    var n := Min(pieces.offered(at), total - at);
    if n == 0 then 1 else n
  }

  function Accepted(pieces: Pieces, at: nat): nat { pieces.accepted(at) }

  /** How many bytes of the frame the buffer still holds when all of it has been written. */
  function Unsent(pieces: Pieces, total: nat, at: nat, pending: nat): (n: nat)
    requires at <= total && pending <= WRITE_BUFFER && pending <= at
    ensures n <= WRITE_BUFFER && n <= total
    decreases total - at
  {
    if at == total then pending
    else
      var (n, held) := WriteStep(pending, Offered(pieces, at, total), Accepted(pieces, at));
      Unsent(pieces, total, at + n, held)
  }

  /** What has gone out only grows. */
  lemma {:induction false} UnsentGrows(pieces: Pieces, total: nat, at: nat, pending: nat)
    requires at <= total && pending <= WRITE_BUFFER && pending <= at
    ensures at - pending <= total - Unsent(pieces, total, at, pending)
    decreases total - at
  {
    if at < total {
      var (n, held) := WriteStep(pending, Offered(pieces, at, total), Accepted(pieces, at));
      UnsentGrows(pieces, total, at + n, held);
    }
  }

  lemma PieceOf(frame: Bytes, at: nat, n: nat, m: nat, k: nat)
    requires m <= n && at + n <= |frame|
    ensures frame[..at] + frame[at..at + n] == frame[..at + n]
    ensures frame[..at] + frame[at..at + n][..m] == frame[..at + m]
    ensures k <= at + n ==> frame[..at + n][..k] == frame[..k]
  {}

  /** The encoder's output, written piece by piece through the buffer. */
  method Deliver(conn: Connection, frame: Bytes, pieces: Pieces) returns (ok: bool)
    requires conn.Valid() && conn.sent == [] && conn.pending == []
    modifies conn
    ensures conn.Valid()
    ensures ok <==> |frame| - Unsent(pieces, |frame|, 0, 0) <= conn.capacity
    ensures ok ==> conn.sent + conn.pending == frame
    ensures !ok ==> conn.capacity < |frame| && conn.sent == frame[..conn.capacity]
  {
    hide WriteStep;
    hide Unsent;
    var at := 0;
    while at < |frame|
      invariant conn.Valid() && at <= |frame|
      invariant conn.sent + conn.pending == frame[..at]
      invariant Unsent(pieces, |frame|, 0, 0) == Unsent(pieces, |frame|, at, |conn.pending|)
    {
      var n := Offered(pieces, at, |frame|);
      PieceOf(frame, at, n, WriteStep(|conn.pending|, n, Accepted(pieces, at)).0, conn.capacity);
      UnsentStep(pieces, |frame|, at, |conn.pending|);
      var taken;
      ok, taken := conn.Write(frame[at..at + n], Accepted(pieces, at));
      if !ok {
        return;
      }
      at := at + taken;
    }
    UnsentAtEnd(pieces, |frame|, |conn.pending|);
    ok := true;
  }

  lemma UnsentAtEnd(pieces: Pieces, total: nat, pending: nat)
    requires pending <= WRITE_BUFFER && pending <= total
    ensures Unsent(pieces, total, total, pending) == pending
  {}

  lemma UnsentStep(pieces: Pieces, total: nat, at: nat, pending: nat)
    requires at < total && pending <= WRITE_BUFFER && pending <= at
    ensures var (n, held) := WriteStep(pending, Offered(pieces, at, total), Accepted(pieces, at));
      && Unsent(pieces, total, at, pending) == Unsent(pieces, total, at + n, held)
      && at + n - held <= total - Unsent(pieces, total, at, pending)
  {
    hide WriteStep;
    var (n, held) := WriteStep(pending, Offered(pieces, at, total), Accepted(pieces, at));
    UnsentGrows(pieces, total, at + n, held);
  }

  /** What becomes of the bytes at a position of the file: they are read, at most so many, and
      encoded; reading them fails; or they are read and the connection times out once, with
      some of them encoded. */
  datatype Outcome = UpTo(count: nat) | ReadError | TimesOut(count: nat, encoded: nat)

  function OutcomeAt(outcomes: nat -> Outcome, pos: nat): Outcome { outcomes(pos) }

  function Chunk(file: Bytes, pos: nat, count: nat): Bytes
    requires pos <= |file|
  {
    ReadAt(file, pos, TRANSFER_CHUNK_BYTES, count)
  }

  /** How far into the file the encoder gets. */
  function Reached(file: Bytes, outcomes: nat -> Outcome, pos: nat): (n: nat)
    requires pos <= |file|
    ensures pos <= n <= |file|
    decreases |file| - pos
  {
    match OutcomeAt(outcomes, pos)
    case ReadError => pos
    case TimesOut(count, encoded) => pos + Min(encoded, |Chunk(file, pos, count)|)
    case UpTo(count) =>
      var buf := Chunk(file, pos, count);
      if buf == [] then pos else Reached(file, outcomes, pos + |buf|)
  }

  /** Nothing fails on the way to the end of the file. */
  predicate ReadsThrough(file: Bytes, outcomes: nat -> Outcome, pos: nat)
    requires pos <= |file|
    decreases |file| - pos
  {
    match OutcomeAt(outcomes, pos)
    case ReadError => false
    case TimesOut(count, _) => Chunk(file, pos, count) == []
    case UpTo(count) =>
      var buf := Chunk(file, pos, count);
      buf == [] || ReadsThrough(file, outcomes, pos + |buf|)
  }

  lemma {:induction false} ThroughReachesAll(file: Bytes, outcomes: nat -> Outcome, pos: nat)
    requires pos <= |file| && ReadsThrough(file, outcomes, pos)
    ensures Reached(file, outcomes, pos) == |file|
    decreases |file| - pos
  {
    match OutcomeAt(outcomes, pos) {
      case TimesOut(count, _) =>
      case UpTo(count) =>
        var buf := Chunk(file, pos, count);
        if buf != [] {
          ThroughReachesAll(file, outcomes, pos + |buf|);
        }
    }
  }

  /** The frame that leaves the sender: of as much of the file as the encoder got. */
  function FrameSent(g: Gzip, file: Bytes, outcomes: nat -> Outcome): Bytes {
    Encode(g, file[..Reached(file, outcomes, 0)])
  }

  /** A connection that times out on the first chunk leaves the frame of what was encoded. */
  lemma TimeoutCompletesPart(g: Gzip, file: Bytes, outcomes: nat -> Outcome)
    requires OutcomeAt(outcomes, 0).TimesOut?
    ensures var o := OutcomeAt(outcomes, 0);
      FrameSent(g, file, outcomes) == Encode(g, file[..Min(o.encoded, |ReadAt(file, 0, 262144, o.count)|)])
  {}

  /** Streams the pinned file from offset 0, however reads and writes come out.  On an error the
      encoder is dropped, which completes the frame of what it was given, trailer and all.
      Success is reported exactly when nothing failed on the way and the connection took all
      but what the buffer still held; in any case the connection gets that frame, or as much
      of it as it takes. */
  method StreamSnapshot(g: Gzip, snap: Snapshot, conn: Connection, outcomes: nat -> Outcome, pieces: Pieces)
    returns (r: Option<nat>)
    requires conn.Valid() && conn.sent == [] && conn.pending == []
    modifies conn
    ensures var frame := FrameSent(g, snap.file, outcomes);
      && conn.sent == frame[..Min(conn.capacity, |frame|)]
      && (r.Some? <==> ReadsThrough(snap.file, outcomes, 0)
                       && |frame| - Unsent(pieces, |frame|, 0, 0) <= conn.capacity)
    ensures r.Some? ==> r.value == |snap.file|
  {
    hide Unsent;
    hide Reached;
    hide ReadsThrough;
    hide Chunk;
    var pos := 0;
    var encoded: Bytes := [];
    var failed := false;
    while true
      invariant pos <= |snap.file| && encoded == snap.file[..pos] && !failed
      invariant conn.Valid() && conn.sent == [] && conn.pending == []
      invariant ReadsThrough(snap.file, outcomes, 0) <==> ReadsThrough(snap.file, outcomes, pos)
      invariant Reached(snap.file, outcomes, 0) == Reached(snap.file, outcomes, pos)
      decreases |snap.file| - pos
    {
      OutcomeStep(snap.file, outcomes, pos);
      var outcome := OutcomeAt(outcomes, pos);
      if outcome.ReadError? {
        failed := true;
        break;
      }
      var buf := Chunk(snap.file, pos, outcome.count);
      if buf == [] {
        break;
      }
      if outcome.TimesOut? {
        encoded := encoded + buf[..Min(outcome.encoded, |buf|)];
        failed := true;
        break;
      }
      encoded := encoded + buf;
      pos := pos + |buf|;
    }
    assert encoded == snap.file[..Reached(snap.file, outcomes, 0)];
    var ok := Deliver(conn, Encode(g, encoded), pieces);
    conn.Drop();
    r := if ok && !failed then Some(pos) else None;
  }

  /** What one round of the loop does to the encoder's progress. */
  lemma OutcomeStep(file: Bytes, outcomes: nat -> Outcome, pos: nat)
    requires pos <= |file|
    ensures OutcomeAt(outcomes, pos).ReadError? ==>
      !ReadsThrough(file, outcomes, pos) && Reached(file, outcomes, pos) == pos
    ensures !OutcomeAt(outcomes, pos).ReadError? ==>
      var buf := Chunk(file, pos, OutcomeAt(outcomes, pos).count);
      && pos + |buf| <= |file| && buf == file[pos..pos + |buf|] && (buf == [] <==> pos == |file|)
      && (buf == [] ==> ReadsThrough(file, outcomes, pos) && Reached(file, outcomes, pos) == pos)
    ensures OutcomeAt(outcomes, pos).TimesOut? ==>
      var buf := Chunk(file, pos, OutcomeAt(outcomes, pos).count);
      && (buf != [] ==> !ReadsThrough(file, outcomes, pos))
      && Reached(file, outcomes, pos) == pos + Min(OutcomeAt(outcomes, pos).encoded, |buf|)
    ensures OutcomeAt(outcomes, pos).UpTo? ==>
      var buf := Chunk(file, pos, OutcomeAt(outcomes, pos).count);
      buf != [] ==>
        && (ReadsThrough(file, outcomes, pos) <==> ReadsThrough(file, outcomes, pos + |buf|))
        && Reached(file, outcomes, pos) == Reached(file, outcomes, pos + |buf|)
  {}

  /** "A failure to flush the trailer is observed" fails for every frame smaller than the
      buffer: it is all still in there when success is reported, whatever the connection. */
  lemma {:induction false} SmallFrameNeverChecked(pieces: Pieces, total: nat, at: nat)
    requires at <= total < 8192
    ensures Unsent(pieces, total, at, at) == total
    decreases total - at
  {
    if at < total {
      SmallFrameNeverChecked(pieces, total, at + Offered(pieces, at, total));
    }
  }

  /** Such a run: nothing of the frame reaches the peer, and the sender reports success. */
  method SuccessWithNothingSent(g: Gzip, snap: Snapshot, pieces: Pieces) returns (conn: Connection, r: Option<nat>)
    requires 0 < |Encode(g, snap.file)| < WRITE_BUFFER
    ensures fresh(conn) && conn.sent == [] && r == Some(|snap.file|)
  {
    conn := new Connection(0);
    var outcomes: nat -> Outcome := pos => UpTo(TRANSFER_CHUNK_BYTES);
    EveryReadWorks(snap.file, outcomes, 0);
    ThroughReachesAll(snap.file, outcomes, 0);
    assert snap.file[..|snap.file|] == snap.file;
    SmallFrameNeverChecked(pieces, |Encode(g, snap.file)|, 0);
    r := StreamSnapshot(g, snap, conn, outcomes, pieces);
  }

  lemma {:induction false} EveryReadWorks(file: Bytes, outcomes: nat -> Outcome, pos: nat)
    requires pos <= |file| && forall n :: OutcomeAt(outcomes, n).UpTo?
    ensures ReadsThrough(file, outcomes, pos)
    decreases |file| - pos
  {
    var buf := Chunk(file, pos, OutcomeAt(outcomes, pos).count);
    if buf != [] {
      EveryReadWorks(file, outcomes, pos + |buf|);
    }
  }

  /** What one poll of the raw-transfer port shows. */
  datatype Poll = Connected(ip: nat) | NobodyYet(now: nat) | AcceptError

  datatype Wait = Got(poll: nat) | GaveUp(poll: nat) | StillWaiting

  /** The polling loop over the polls made so far.  It takes only the requester's connection,
      and it gives up exactly at an accept error, or when nobody is there at or past the
      deadline; the deadline counts only then, so strangers connecting again and again keep it
      waiting for as long as they do. */
  method AwaitRequester(polls: seq<Poll>, requester: nat, deadline: nat) returns (w: Wait)
    ensures w.Got? ==> w.poll < |polls| && polls[w.poll] == Connected(requester)
    ensures w.GaveUp? ==>
      && w.poll < |polls|
      && (polls[w.poll] == AcceptError || (polls[w.poll].NobodyYet? && polls[w.poll].now >= deadline))
    ensures forall i :: 0 <= i < |polls| && (w.StillWaiting? || i < w.poll) ==>
      || (polls[i].Connected? && polls[i].ip != requester)
      || (polls[i].NobodyYet? && polls[i].now < deadline)
  {
    for i := 0 to |polls|
      invariant forall k :: 0 <= k < i ==>
        || (polls[k].Connected? && polls[k].ip != requester)
        || (polls[k].NobodyYet? && polls[k].now < deadline)
    {
      match polls[i] {
        case Connected(ip) =>
          if ip == requester {
            return Got(i);
          }
        case NobodyYet(now) =>
          if now >= deadline {
            return GaveUp(i);
          }
        case AcceptError =>
          return GaveUp(i);
      }
    }
    w := StillWaiting;
  }

  // ---------------------------------------------------------------- the receiver

  /** What the decoder delivers: a whole payload, or some bytes and then an error. */
  datatype Stream = Whole(payload: Bytes) | Broken(partial: Bytes)

  function Decoded(g: Gzip, wire: Bytes, partial: Bytes): Stream {
    match Decode(g, wire)
    case Some(p) => Whole(p)
    case None => Broken(partial)
  }

  const PULL_CHUNK_BYTES := 256 * 1024

  /** The decompress-and-write loop: chunks of any size into the staging file. */
  method Receive(stream: Stream, tmp: LogWriter, shorts: nat -> nat) returns (ok: bool)
    requires tmp.bytes == []
    modifies tmp
    ensures ok <==> stream.Whole? && |stream.payload| <= tmp.capacity
    ensures ok ==> tmp.bytes == stream.payload
  {
    var payload := if stream.Whole? then stream.payload else stream.partial;
    var total := 0;
    while true
      invariant total <= |payload| && total <= tmp.capacity && tmp.bytes == payload[..total]
      decreases |payload| - total
    {
      var buf := ReadAt(payload, total, PULL_CHUNK_BYTES, shorts(total));
      if |buf| == 0 {
        break;
      }
      ok := tmp.WriteAll(buf);
      if !ok {
        return false;
      }
      total := total + |buf|;
    }
    ok := stream.Whole?;
  }

  /** The two names a pull works with. */
  class Disk {
    var db: Option<Bytes>
    var tmp: Option<Bytes>

    constructor (db: Option<Bytes>)
      ensures this.db == db && tmp == None
    {
      this.db, tmp := db, None;
    }
  }

  /** What a pull comes to. */
  function Pulled(c: Codec, answer: Option<Stream>, capacity: nat, mtime: nat, renameFails: bool): Option<Snapshot> {
    if answer.Some? && answer.value.Whole? && |answer.value.payload| <= capacity && !renameFails then
      match Load(c, answer.value.payload, mtime)
      case Ok(s) => Some(s)
      case Err(_) => None
    else None
  }

  /** A pull installs exactly the received payload, and only after it has loaded.  `answer` is
      the stream the peer was asked for, or nothing if it could not be reached or declined,
      which touches no file; on any other failure the database path is as it was. */
  method PullFromPeer(c: Codec, answer: Option<Stream>, disk: Disk, capacity: nat, shorts: nat -> nat, mtime: nat,
                      renameFails: bool, removeFails: bool)
    returns (r: Option<Snapshot>)
    modifies disk
    ensures r == Pulled(c, answer, capacity, mtime, renameFails)
    ensures r.Some? ==> disk.db == Some(answer.value.payload) && disk.tmp == None
    ensures r.None? ==> disk.db == old(disk.db)
    ensures answer.None? ==> disk.tmp == old(disk.tmp)
    ensures r.None? && answer.Some? && !removeFails ==> disk.tmp == None
  {
    if answer.None? {
      return None;
    }
    var file := new LogWriter(capacity);
    r := None;
    var ok := Receive(answer.value, file, shorts);
    disk.tmp := Some(file.bytes);
    if ok {
      var loaded := FromFile(c, file.bytes, mtime);
      if loaded.Ok? && !renameFails {
        disk.db, disk.tmp := disk.tmp, None;
        r := Some(loaded.value);
      }
    }
    if r.None? && !removeFails {
      disk.tmp := None;
    }
  }

  // ---------------------------------------------------------------- replicas agree

  /** The file says itself when it was built. */
  predicate CarriesBuildTime(c: Codec, file: Bytes) {
    var ls := Lines(file);
    ls != [] && IsMetaLine(c, ls[0]) && MetaBuiltAt(Parse(c, ls[0].content).value).Some?
  }

  /** Index, line count and format version never depend on where a file was loaded; the build
      time is the same everywhere exactly when the file carries it. */
  lemma LoadedAlikeIff(c: Codec, file: Bytes)
    requires Utf8(file)
    ensures forall m: nat, n: nat ::
      var a, b := Load(c, file, m).value, Load(c, file, n).value;
      a.index == b.index && a.lines == b.lines && a.formatVersion == b.formatVersion && a.file == b.file == file
    ensures CarriesBuildTime(c, file) <==> forall m: nat, n: nat :: Load(c, file, m) == Load(c, file, n)
  {
    hide Utf8;
    hide BuildIndex;
    hide Entries;
    if !CarriesBuildTime(c, file) {
      assert Load(c, file, 0).value.builtAt == 0 && Load(c, file, 1).value.builtAt == 1;
    }
  }

  /** Frames are what gzip promises, for every first part of the file. */
  ghost predicate FramedThroughout(g: Gzip, file: Bytes) {
    forall n :: 0 <= n <= |file| ==> Framed(g, file[..n])
  }

  /** Of a frame and its parts only the whole frame is accepted. */
  lemma OnlyWholeFramesArrive(g: Gzip, payload: Bytes, wire: Bytes, partial: Bytes)
    requires Framed(g, payload) && wire <= Encode(g, payload)
    ensures Decoded(g, wire, partial) == if wire == Encode(g, payload) then Whole(payload) else Broken(partial)
  {
    if wire != Encode(g, payload) {
      assert wire < Encode(g, payload);
    }
  }

  /** "Never data silently accepted as complete": whatever arrives and is accepted is the file
      as far as the sender's encoder got, so it is the pinned file if and only if that was to
      the end. */
  lemma AcceptedIsWholeIff(g: Gzip, file: Bytes, outcomes: nat -> Outcome, wire: Bytes, partial: Bytes)
    requires FramedThroughout(g, file) && wire <= FrameSent(g, file, outcomes)
    requires Decoded(g, wire, partial).Whole?
    ensures wire == FrameSent(g, file, outcomes)
    ensures Decoded(g, wire, partial) == Whole(file[..Reached(file, outcomes, 0)])
    ensures Decoded(g, wire, partial) == Whole(file) <==> Reached(file, outcomes, 0) == |file|
  {
    hide Framed;
    hide Reached;
    var n := Reached(file, outcomes, 0);
    OnlyWholeFramesArrive(g, file[..n], wire, partial);
    assert n == |file| ==> file[..n] == file;
    assert n < |file| ==> |file[..n]| < |file|;
  }

  /** A transfer from the sender's reads to the receiver's disk.  `arrived` bytes of what was
      sent get through. */
  method Replicate(c: Codec, g: Gzip, snap: Snapshot, outcomes: nat -> Outcome, pieces: Pieces, conn: Connection,
                   arrived: nat, partial: Bytes, disk: Disk, room: nat, shorts: nat -> nat, mtime: nat,
                   renameFails: bool, removeFails: bool)
    returns (sent: Option<nat>, r: Option<Snapshot>)
    requires FramedThroughout(g, snap.file)
    requires conn.Valid() && conn.sent == [] && conn.pending == []
    modifies conn, disk
    ensures var part, frame := snap.file[..Reached(snap.file, outcomes, 0)], FrameSent(g, snap.file, outcomes);
      && (r.Some? <==> |frame| <= conn.capacity && |frame| <= arrived && |part| <= room && Utf8(part) && !renameFails)
      && (r.Some? ==> Load(c, part, mtime) == Ok(r.value) && disk.db == Some(part))
    ensures r.None? ==> disk.db == old(disk.db)
  {
    hide Framed;
    hide Reached;
    hide Unsent;
    hide ReadsThrough;
    hide Load;
    sent := StreamSnapshot(g, snap, conn, outcomes, pieces);
    var wire := conn.sent[..Min(arrived, |conn.sent|)];
    ghost var part := snap.file[..Reached(snap.file, outcomes, 0)];
    OnlyWholeFramesArrive(g, part, wire, partial);
    LoadNeedsUtf8(c, part, mtime);
    r := PullFromPeer(c, Some(Decoded(g, wire, partial)), disk, room, shorts, mtime, renameFails, removeFails);
  }

  /** Replica agreement: after a pull that succeeds the receiver serves exactly the sender's
      snapshot, from exactly its bytes, if and only if the sender's encoder got to the end of
      the file, when the file carries its build time. */
  lemma ReplicaAgreementIff(c: Codec, snap: Snapshot, outcomes: nat -> Outcome, here: nat, there: nat)
    requires Load(c, snap.file, there) == Ok(snap) && CarriesBuildTime(c, snap.file)
    requires var part := snap.file[..Reached(snap.file, outcomes, 0)]; Load(c, part, here).Ok?
    ensures Load(c, snap.file[..Reached(snap.file, outcomes, 0)], here) == Ok(snap) <==>
      Reached(snap.file, outcomes, 0) == |snap.file|
  {
    hide Reached;
    hide CarriesBuildTime;
    hide Utf8;
    hide BuildIndex;
    hide Entries;
    var n := Reached(snap.file, outcomes, 0);
    LoadNeedsUtf8(c, snap.file, there);
    LoadedAlikeIff(c, snap.file);
    assert n == |snap.file| ==> snap.file[..n] == snap.file;
    assert n < |snap.file| ==> |snap.file[..n]| < |snap.file|;
  }

  /** What the receiver serves otherwise: if the encoder stopped inside a character the pull
      fails, and if not, the receiver takes over the index of the lines the sender got through
      whole, and drops everything behind them. */
  lemma TruncatedReplica(c: Codec, snap: Snapshot, outcomes: nat -> Outcome, here: nat)
    requires Utf8(snap.file)
    ensures var n := Reached(snap.file, outcomes, 0);
      && (Load(c, snap.file[..n], here).Ok? <==> CharBoundary(snap.file, n))
      && (CharBoundary(snap.file, n) ==>
            Load(c, snap.file[..n], here).value.index == BuildIndex(Entries(c, EndingBy(Lines(snap.file), n))))
  {
    hide Reached;
    hide Load;
    hide BuildIndex;
    TornTail(c, snap.file, Reached(snap.file, outcomes, 0), here);
  }

  /** Such a transfer: the sender's first read fails, nothing is told to the receiver, and an
      empty database is renamed over a working one. */
  method FailedReadEmptiesReplica(c: Codec, g: Gzip, snap: Snapshot, pieces: Pieces, disk: Disk, mtime: nat)
    returns (sent: Option<nat>, r: Option<Snapshot>)
    requires FramedThroughout(g, snap.file)
    modifies disk
    ensures sent.None? && r == Some(Snapshot([], [], 0, mtime, 0)) && disk.db == Some([])
  {
    var frame := Encode(g, []);
    var conn := new Connection(|frame|);
    var outcomes: nat -> Outcome := pos => ReadError;
    assert snap.file[..0] == [];
    assert Reached(snap.file, outcomes, 0) == 0 && !ReadsThrough(snap.file, outcomes, 0);
    NothingLoads(c, mtime);
    sent := StreamSnapshot(g, snap, conn, outcomes, pieces);
    OnlyWholeFramesArrive(g, [], conn.sent, []);
    r := PullFromPeer(c, Some(Decoded(g, conn.sent, [])), disk, 0, pos => 0, mtime, false, false);
  }

  lemma NothingLoads(c: Codec, mtime: nat)
    ensures Load(c, [], mtime) == Ok(Snapshot([], [], 0, mtime, 0))
  {
    assert Lines([]) == [];
    BuildIndexCorrect([]);
  }

  lemma LoadNeedsUtf8(c: Codec, file: Bytes, mtime: nat)
    ensures Load(c, file, mtime).Ok? <==> Utf8(file)
  {}

  /** A log written by a refresh always carries its build time, so it replicates exactly. */
  lemma RefreshedLogsReplicate(c: Codec, cycle: Cycle, prev: Option<Snapshot>)
    requires PrintableCycle(c, cycle) && (prev.Some? ==> Sound(c, prev.value))
    requires Compact(c, cycle, prev).Ok?
    ensures CarriesBuildTime(c, Compact(c, cycle, prev).value.file)
  {
    hide Compact;
    hide Sound;
    hide PrintableCycle;
    hide CarriesBuildTime;
    var file := Compact(c, cycle, prev).value.file;
    forall m: nat, n: nat ensures Load(c, file, m) == Load(c, file, n) {
      ReloadAgreement(c, cycle, prev, m);
      ReloadAgreement(c, cycle, prev, n);
    }
    ReloadAgreement(c, cycle, prev, 0);
    LoadNeedsUtf8(c, file, 0);
    LoadedAlikeIff(c, file);
  }
}
