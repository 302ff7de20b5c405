/** The database file, its staging file and everyone who has them open: a transition system
    that interleaves readers, refresh cycles, boot-time pulls, failures and crashes
    (`src/database.rs`, `src/refresh.rs`, `src/mesh_sync.rs`, boot in `src/main.rs`).

    There is one writer, a rename is atomic, and what was written before a crash is there
    after it. */
module Store {
  import opened ByteStrings
  import opened Outcomes
  import opened Records
  import opened Log
  import opened Database
  import opened Compaction
  import opened History

  // ---------------------------------------------------------------- the file system

  datatype Path = DbPath | TmpPath

  /** Paths name inodes, inodes hold bytes; numbers from `next` on are unused. */
  datatype Fs = Fs(dir: map<Path, nat>, data: map<nat, Bytes>, next: nat)

  ghost predicate FsOk(fs: Fs) {
    && (forall p :: p in fs.dir ==> fs.dir[p] in fs.data)
    && (forall i :: i in fs.data ==> i < fs.next)
  }

  /** `File::create`: truncates the inode the path names, or makes a new one. */
  function CreateTmp(fs: Fs): Fs {
    if TmpPath in fs.dir then fs.(data := fs.data[fs.dir[TmpPath] := []])
    else Fs(fs.dir[TmpPath := fs.next], fs.data[fs.next := []], fs.next + 1)
  }

  function AppendTo(fs: Fs, inode: nat, chunk: Bytes): Fs
    requires inode in fs.data
  {
    fs.(data := fs.data[inode := fs.data[inode] + chunk])
  }

  function RenameTmp(fs: Fs): Fs
    requires TmpPath in fs.dir
  {
    fs.(dir := (fs.dir - {TmpPath})[DbPath := fs.dir[TmpPath]])
  }

  function RemoveTmp(fs: Fs): Fs {
    fs.(dir := fs.dir - {TmpPath})
  }

  function PublishedBytes(fs: Fs): Option<Bytes> {
    if DbPath in fs.dir && fs.dir[DbPath] in fs.data then Some(fs.data[fs.dir[DbPath]]) else None
  }

  // ---------------------------------------------------------------- the process

  /** Where a log comes from: the log it started as, loaded when the file system gave it that
      modification time, and the cycles run on it since.  It is history only: nothing the
      process does looks at it. */
  datatype Chain = Chain(base: Bytes, mtime: nat, done: seq<Attempt>)

  /** A snapshot together with the inode its descriptor keeps open. */
  datatype Pinned = Pinned(snap: Snapshot, inode: nat, chain: Chain)

  datatype Writer =
    | Idle
    | Writing(prev: Option<Pinned>, cycle: Cycle, inode: nat, plan: Result<Snapshot, Error>)
    | Renamed(prev: Option<Pinned>, cycle: Cycle, inode: nat, made: Snapshot)
    | Opened(prev: Option<Pinned>, cycle: Cycle, built: Pinned)
    | Receiving(inode: nat)
    | Staged(pulled: Pinned)
    | Installed(got: Pinned)

  /** `held` is a snapshot loaded at boot but not served yet; `log` is where the log at the
      database path comes from. */
  datatype State = State(
    fs: Fs,
    log: Option<Chain>,
    server: Option<Pinned>,
    held: Option<Pinned>,
    readers: map<nat, Pinned>,
    writer: Writer)

  datatype Action =
    | Acquire(reader: nat)
    | Release(reader: nat)
    | StartCycle(cycle: Cycle)
    | Append(chunk: Bytes)
    | RenameNew
    | OpenNew
    | Swap
    | Fail(remove: bool)
    | StartPull
    | Receive(chunk: Bytes)
    | Stage(mtime: nat)
    | Install
    | ServePulled
    | BootLoad(mtime: nat)
    | ServeHeld
    | Reclaim(inode: nat)
    | Crash

  /** The snapshot a cycle merges with: the served one, or at boot the one loaded. */
  function Base(s: State): Option<Pinned> {
    if s.server.Some? then s.server else s.held
  }

  function SnapOf(p: Option<Pinned>): Option<Snapshot> {
    match p case Some(q) => Some(q.snap) case None => None
  }

  /** An existing database is loaded before anything is built from it. */
  predicate MayRebuild(s: State) {
    Base(s).Some? || DbPath !in s.fs.dir
  }

  /** The writer's own descriptor. */
  predicate WriterHas(w: Writer, inode: nat) {
    match w
    case Writing(_, _, i, _) => i == inode
    case Renamed(_, _, i, _) => i == inode
    case Receiving(i) => i == inode
    case Staged(pulled) => pulled.inode == inode
    case _ => false
  }

  predicate WriterKeeps(w: Writer, p: Pinned) {
    match w
    case Writing(prev, _, _, _) => prev == Some(p)
    case Renamed(prev, _, _, _) => prev == Some(p)
    case Opened(prev, _, built) => prev == Some(p) || built == p
    case Installed(got) => got == p
    case _ => false
  }

  /** Everyone with a published snapshot in hand. */
  predicate Live(s: State, p: Pinned) {
    s.server == Some(p) || s.held == Some(p) || p in s.readers.Values || WriterKeeps(s.writer, p)
  }

  /** The file system may reuse an inode that no path names and nobody has open. */
  ghost predicate Unused(s: State, inode: nat) {
    && inode in s.fs.data && !WriterHas(s.writer, inode)
    && (forall path :: path in s.fs.dir ==> s.fs.dir[path] != inode)
    && (forall p :: Live(s, p) ==> p.inode != inode)
  }

  ghost predicate Enabled(c: Codec, s: State, a: Action) {
    match a
    case Acquire(r) => s.server.Some? && r !in s.readers
    case Release(r) => r in s.readers
    case StartCycle(cycle) => s.writer.Idle? && MayRebuild(s) && PrintableCycle(c, cycle) && ShortCycle(c, cycle)
    case Append(chunk) =>
      s.writer.Writing? && s.writer.inode in s.fs.data
      && (s.writer.plan.Ok? ==> s.fs.data[s.writer.inode] + chunk <= s.writer.plan.value.file)
    case RenameNew =>
      s.writer.Writing? && s.writer.inode in s.fs.data && TmpPath in s.fs.dir
      && s.writer.plan.Ok? && s.fs.data[s.writer.inode] == s.writer.plan.value.file
    case OpenNew => s.writer.Renamed? && DbPath in s.fs.dir
    case Swap => s.writer.Opened?
    case Fail(remove) =>
      && (s.writer.Writing? || s.writer.Renamed? || s.writer.Receiving? || s.writer.Staged?)
      && (remove ==> s.writer.Receiving? || s.writer.Staged?)
    case StartPull => s.writer.Idle? && s.server.None? && MayRebuild(s)
    case Receive(_) => s.writer.Receiving? && s.writer.inode in s.fs.data
    case Stage(mtime) =>
      s.writer.Receiving? && s.writer.inode in s.fs.data
      && Load(c, s.fs.data[s.writer.inode], mtime).Ok? && ShortRecords(c, s.fs.data[s.writer.inode])
    case Install => s.writer.Staged? && TmpPath in s.fs.dir
    case ServePulled => s.writer.Installed?
    case BootLoad(mtime) =>
      s.writer.Idle? && s.server.None? && s.held.None? && PublishedBytes(s.fs).Some?
      && Load(c, PublishedBytes(s.fs).value, mtime).Ok?
    case ServeHeld => s.writer.Idle? && s.server.None? && s.held.Some?
    case Reclaim(inode) => Unused(s, inode)
    case Crash => true
  }

  /** The process serves a snapshot. */
  function StartServing(s: State, p: Pinned): State {
    s.(server := Some(p), held := None, writer := Idle)
  }

  /** A cycle's log continues the one it was merged with; an initial crawl starts a new one. */
  function NextChain(prev: Option<Pinned>, cycle: Cycle, made: Snapshot): Chain {
    match prev
    case Some(p) => p.chain.(done := p.chain.done + [Attempt(cycle, false)])
    case None => Chain(made.file, 0, [])
  }

  /** A log no cycle has rewritten is whatever it loads as. */
  function BootChain(log: Option<Chain>, bytes: Bytes, mtime: nat): Chain {
    if log.Some? && log.value.done != [] then log.value else Chain(bytes, mtime, [])
  }

  /** The new log as the refresh reopens it by its path. */
  function Reopened(s: State): Pinned
    requires s.writer.Renamed? && DbPath in s.fs.dir
  {
    Pinned(s.writer.made, s.fs.dir[DbPath], NextChain(s.writer.prev, s.writer.cycle, s.writer.made))
  }

  /** The published log as a boot loads it. */
  function Booted(c: Codec, s: State, mtime: nat): Pinned
    requires PublishedBytes(s.fs).Some? && Load(c, PublishedBytes(s.fs).value, mtime).Ok?
  {
    var bytes := PublishedBytes(s.fs).value;
    Pinned(Load(c, bytes, mtime).value, s.fs.dir[DbPath], BootChain(s.log, bytes, mtime))
  }

  ghost function Apply(c: Codec, s: State, a: Action): State
    requires Enabled(c, s, a)
  {
    match a
    case Acquire(r) => s.(readers := s.readers[r := s.server.value])
    case Release(r) => s.(readers := s.readers - {r})
    case StartCycle(cycle) =>
      var fs := CreateTmp(s.fs);
      s.(fs := fs, writer := Writing(Base(s), cycle, fs.dir[TmpPath], Compact(c, cycle, SnapOf(Base(s)))))
    case Append(chunk) => s.(fs := AppendTo(s.fs, s.writer.inode, chunk))
    case RenameNew =>
      s.(fs := RenameTmp(s.fs), log := Some(NextChain(s.writer.prev, s.writer.cycle, s.writer.plan.value)),
         writer := Renamed(s.writer.prev, s.writer.cycle, s.writer.inode, s.writer.plan.value))
    case OpenNew =>
      s.(writer := Opened(s.writer.prev, s.writer.cycle, Reopened(s)))
    case Swap => StartServing(s, s.writer.built)
    case Fail(remove) => s.(fs := if remove then RemoveTmp(s.fs) else s.fs, writer := Idle)
    case StartPull =>
      var fs := CreateTmp(s.fs);
      s.(fs := fs, writer := Receiving(fs.dir[TmpPath]))
    case Receive(chunk) => s.(fs := AppendTo(s.fs, s.writer.inode, chunk))
    case Stage(mtime) =>
      var bytes := s.fs.data[s.writer.inode];
      s.(writer := Staged(Pinned(Load(c, bytes, mtime).value, s.writer.inode, Chain(bytes, mtime, []))))
    case Install => s.(fs := RenameTmp(s.fs), log := Some(s.writer.pulled.chain), writer := Installed(s.writer.pulled))
    case ServePulled => StartServing(s, s.writer.got)
    case BootLoad(mtime) =>
      s.(held := Some(Booted(c, s, mtime)))
    case ServeHeld => StartServing(s, s.held.value)
    case Reclaim(inode) => s.(fs := s.fs.(data := s.fs.data - {inode}))
    case Crash => State(s.fs, s.log, None, None, map[], Idle)
  }

  // ---------------------------------------------------------------- the invariant

  /** A log that any later boot can load into a sound snapshot. */
  ghost predicate CompleteLog(c: Codec, bytes: Bytes) {
    Utf8(bytes) && ShortRecords(c, bytes)
  }

  ghost predicate ChainOk(c: Codec, chain: Chain) {
    CompleteLog(c, chain.base) && WellFed(c, chain.done)
  }

  /** What a chain's log started as, and what its cycles make of that. */
  ghost function Origin(c: Codec, chain: Chain): Snapshot
    requires ChainOk(c, chain)
  {
    Load(c, chain.base, chain.mtime).value
  }

  ghost function Replay(c: Codec, chain: Chain): Snapshot
    requires ChainOk(c, chain)
  {
    Run(c, Origin(c, chain), chain.done)
  }

  ghost predicate Chained(c: Codec, p: Pinned) {
    ChainOk(c, p.chain) && p.snap == Replay(c, p.chain)
  }

  /** The descriptor's inode still holds the very bytes the index was made for, and the
      snapshot is what its history makes of the log it started as. */
  ghost predicate Backed(c: Codec, fs: Fs, p: Pinned) {
    p.inode in fs.data && fs.data[p.inode] == p.snap.file && Sound(c, p.snap) && Chained(c, p)
  }

  ghost predicate LiveBacked(c: Codec, s: State) {
    forall p :: Live(s, p) ==> Backed(c, s.fs, p)
  }

  /** The staging inode is neither published nor open in any snapshot. */
  ghost predicate TmpPrivate(s: State) {
    TmpPath in s.fs.dir ==>
      && (DbPath in s.fs.dir ==> s.fs.dir[DbPath] != s.fs.dir[TmpPath])
      && (forall p :: Live(s, p) ==> p.inode != s.fs.dir[TmpPath])
  }

  /** What any boot loads from the bytes is what the chain says. */
  ghost predicate LogOk(c: Codec, chain: Chain, bytes: Bytes) {
    && ChainOk(c, chain)
    && (if chain.done == [] then bytes == chain.base else forall m :: Load(c, bytes, m) == Ok(Replay(c, chain)))
  }

  ghost predicate PathOk(c: Codec, s: State) {
    PublishedBytes(s.fs).Some? ==>
      CompleteLog(c, PublishedBytes(s.fs).value) && s.log.Some? && LogOk(c, s.log.value, PublishedBytes(s.fs).value)
  }

  /** What a cycle's plan promises: it is the outcome for the snapshot being merged, sound,
      loadable, and its log agrees with it. */
  ghost predicate PlanOk(c: Codec, prev: Option<Pinned>, cycle: Cycle, made: Snapshot) {
    && PrintableCycle(c, cycle) && ShortCycle(c, cycle)
    && Compact(c, cycle, SnapOf(prev)) == Ok(made)
    && Sound(c, made) && CompleteLog(c, made.file)
    && forall mtime :: Load(c, made.file, mtime) == Ok(made)
  }

  ghost predicate WriterOk(c: Codec, s: State) {
    match s.writer
    case Idle => true
    case Writing(prev, cycle, inode, plan) =>
      && TmpPath in s.fs.dir && s.fs.dir[TmpPath] == inode && inode in s.fs.data && prev == Base(s)
      && (plan.Ok? ==> PlanOk(c, prev, cycle, plan.value) && s.fs.data[inode] <= plan.value.file)
    case Renamed(prev, cycle, inode, made) =>
      && DbPath in s.fs.dir && s.fs.dir[DbPath] == inode && inode in s.fs.data && prev == Base(s)
      && PlanOk(c, prev, cycle, made) && s.fs.data[inode] == made.file
    case Opened(prev, cycle, built) => prev == Base(s) && PlanOk(c, prev, cycle, built.snap)
    case Receiving(inode) => TmpPath in s.fs.dir && s.fs.dir[TmpPath] == inode && s.server.None?
    case Staged(pulled) =>
      && TmpPath in s.fs.dir && s.fs.dir[TmpPath] == pulled.inode && s.server.None?
      && Backed(c, s.fs, pulled) && CompleteLog(c, pulled.snap.file)
      && pulled.chain.done == [] && pulled.chain.base == pulled.snap.file
    case Installed(got) => s.server.None?
  }

  ghost predicate Inv(c: Codec, s: State) {
    && FsOk(s.fs)
    && LiveBacked(c, s)
    && TmpPrivate(s)
    && PathOk(c, s)
    && WriterOk(c, s)
  }

  /** A machine before the process first starts: no process, and at the path nothing or a
      loadable log. */
  ghost predicate Initial(c: Codec, s: State) {
    && FsOk(s.fs)
    && (PublishedBytes(s.fs).Some? ==> CompleteLog(c, PublishedBytes(s.fs).value))
    && (DbPath in s.fs.dir && TmpPath in s.fs.dir ==> s.fs.dir[DbPath] != s.fs.dir[TmpPath])
    && s.log == (match PublishedBytes(s.fs) case Some(bytes) => Some(Chain(bytes, 0, [])) case None => None)
    && s == State(s.fs, s.log, None, None, map[], Idle)
  }

  // ---------------------------------------------------------------- only the staging inode is written

  /** Every step leaves every inode exactly as it was, but for the staging file's and one the
      file system reclaims. */
  lemma OnlyTmpWritten(c: Codec, s: State, a: Action, i: nat)
    requires FsOk(s.fs) && WriterOk(c, s) && Enabled(c, s, a)
    requires i in s.fs.data && (TmpPath in s.fs.dir ==> s.fs.dir[TmpPath] != i) && a != Reclaim(i)
    ensures var s' := Apply(c, s, a); i in s'.fs.data && s'.fs.data[i] == s.fs.data[i]
  {
    hide Compact;
    hide PlanOk;
    hide Load;
    hide Unused;
    hide Backed;
    hide CompleteLog;
  }

  /** A staged pull is not written again either. */
  lemma StagedNotWritten(c: Codec, s: State, a: Action)
    requires s.writer.Staged? && Enabled(c, s, a)
    ensures forall i :: i in s.fs.data && a != Reclaim(i) ==>
      i in Apply(c, s, a).fs.data && Apply(c, s, a).fs.data[i] == s.fs.data[i]
  {
    hide Compact;
    hide Load;
    hide Unused;
  }

  /** No step changes, and no reclaiming frees, the bytes under any snapshot in use. */
  lemma PinnedNeverChanges(c: Codec, s: State, a: Action, p: Pinned)
    requires Inv(c, s) && Enabled(c, s, a)
    requires Live(s, p) || s.writer == Staged(p)
    ensures var s' := Apply(c, s, a); p.inode in s'.fs.data && s'.fs.data[p.inode] == s.fs.data[p.inode] == p.snap.file
  {
    hide Apply;
    hide Sound;
    hide Chained;
    hide LogOk;
    hide Load;
    if Live(s, p) {
      assert Backed(c, s.fs, p);
      OnlyTmpWritten(c, s, a, p.inode);
    } else {
      StagedNotWritten(c, s, a);
    }
  }

  // ---------------------------------------------------------------- the invariant is kept

  lemma FsKept(c: Codec, s: State, a: Action)
    requires FsOk(s.fs) && WriterOk(c, s) && Enabled(c, s, a)
    ensures FsOk(Apply(c, s, a).fs)
  {
    hide Compact;
    hide PlanOk;
    hide Load;
    hide Backed;
    hide CompleteLog;
    hide Live;
  }

  /** The snapshots a step can bring into use. */
  ghost predicate Newcomer(c: Codec, s: State, a: Action, p: Pinned)
    requires Enabled(c, s, a)
  {
    || (a.OpenNew? && p == Reopened(s))
    || (a.Install? && p == s.writer.pulled)
    || (a.BootLoad? && p == Booted(c, s, a.mtime))
  }

  /** Whoever is live after a step was live before it, or is the snapshot just built. */
  lemma LiveAfter(c: Codec, s: State, a: Action, p: Pinned)
    requires Enabled(c, s, a) && Live(Apply(c, s, a), p)
    ensures Live(s, p) || Newcomer(c, s, a, p)
  {
    hide Compact;
    hide Load;
    hide Unused;
    hide BootChain;
    hide NextChain;
  }

  lemma LoadKeepsFile(c: Codec, bytes: Bytes, mtime: nat)
    requires Load(c, bytes, mtime).Ok?
    ensures Load(c, bytes, mtime).value.file == bytes
    ensures Utf8(bytes)
  {}

  lemma LiveBackedKept(c: Codec, s: State, a: Action)
    requires Inv(c, s) && Enabled(c, s, a)
    ensures LiveBacked(c, Apply(c, s, a))
  {
    hide Backed;
    hide Apply;
    hide Live;
    hide Newcomer;
    var s' := Apply(c, s, a);
    forall p | Live(s', p) ensures Backed(c, s'.fs, p) {
      LiveAfter(c, s, a, p);
      if Live(s, p) {
        StillBacked(c, s, a, p);
      } else {
        NewcomerBacked(c, s, a, p);
      }
    }
  }

  lemma StillBacked(c: Codec, s: State, a: Action, p: Pinned)
    requires Inv(c, s) && Enabled(c, s, a) && Live(s, p)
    ensures Backed(c, Apply(c, s, a).fs, p)
  {
    hide Apply;
    hide Sound;
    hide Chained;
    hide LogOk;
    hide Live;
    assert Backed(c, s.fs, p);
    PinnedNeverChanges(c, s, a, p);
  }

  lemma NewcomerBacked(c: Codec, s: State, a: Action, p: Pinned)
    requires Inv(c, s) && Enabled(c, s, a) && Newcomer(c, s, a, p)
    ensures Backed(c, Apply(c, s, a).fs, p)
  {
    match a {
      case OpenNew => ReopenedBacked(c, s);
      case Install => InstalledBacked(c, s);
      case BootLoad(mtime) => BootedBacked(c, s, mtime);
    }
  }

  lemma ReopenedBacked(c: Codec, s: State)
    requires LiveBacked(c, s) && WriterOk(c, s) && Enabled(c, s, OpenNew)
    ensures Backed(c, s.fs, Reopened(s))
  {
    hide Sound;
    hide Compact;
    hide Load;
    hide CompleteLog;
    hide NextChain;
    PrevChained(c, s, s.writer.prev);
    NextChained(c, s.writer.prev, s.writer.cycle, s.writer.made);
  }

  lemma InstalledBacked(c: Codec, s: State)
    requires WriterOk(c, s) && Enabled(c, s, Install)
    ensures Backed(c, RenameTmp(s.fs), s.writer.pulled)
  {
    hide Sound;
    hide Chained;
    hide CompleteLog;
  }

  lemma BootedBacked(c: Codec, s: State, mtime: nat)
    requires FsOk(s.fs) && PathOk(c, s) && Enabled(c, s, BootLoad(mtime))
    ensures Backed(c, s.fs, Booted(c, s, mtime))
  {
    hide Sound;
    hide Load;
    hide Utf8;
    hide ShortRecords;
    hide WellFed;
    var bytes := PublishedBytes(s.fs).value;
    LoadKeepsFile(c, bytes, mtime);
    LoadSound(c, bytes, mtime);
    if s.log.value.done == [] {
      FreshChained(c, bytes, mtime);
    }
  }

  /** A log just loaded is its own history. */
  lemma FreshChained(c: Codec, bytes: Bytes, mtime: nat)
    requires CompleteLog(c, bytes) && Load(c, bytes, mtime).Ok?
    ensures var chain := Chain(bytes, mtime, []);
      ChainOk(c, chain) && Replay(c, chain) == Load(c, bytes, mtime).value
  {
    hide Load;
    hide CompleteLog;
  }

  lemma PrevChained(c: Codec, s: State, prev: Option<Pinned>)
    requires LiveBacked(c, s) && (prev.Some? ==> Live(s, prev.value))
    ensures prev.Some? ==> Chained(c, prev.value)
  {
    hide Chained;
    hide Sound;
    if prev.Some? {
      assert Backed(c, s.fs, prev.value);
    }
  }

  /** A cycle's outcome is what its chain makes of the log it started as. */
  lemma NextChained(c: Codec, prev: Option<Pinned>, cycle: Cycle, made: Snapshot)
    requires PlanOk(c, prev, cycle, made) && (prev.Some? ==> Chained(c, prev.value))
    ensures ChainOk(c, NextChain(prev, cycle, made)) && Replay(c, NextChain(prev, cycle, made)) == made
  {
    hide Compact;
    hide Sound;
    hide Load;
    hide CompleteLog;
    hide PrintableCycle;
    hide ShortCycle;
    match prev {
      case None =>
        assert Load(c, made.file, 0) == Ok(made);
      case Some(p) =>
        OneMoreCycle(c, p.chain, cycle, made);
    }
  }

  lemma OneMoreCycle(c: Codec, chain: Chain, cycle: Cycle, made: Snapshot)
    requires ChainOk(c, chain) && PrintableCycle(c, cycle) && ShortCycle(c, cycle)
    requires Compact(c, cycle, Some(Replay(c, chain))) == Ok(made)
    ensures var next := chain.(done := chain.done + [Attempt(cycle, false)]);
      ChainOk(c, next) && Replay(c, next) == made
  {
    hide Compact;
    hide Load;
    hide CompleteLog;
    hide PrintableCycle;
    hide ShortCycle;
    var more := chain.done + [Attempt(cycle, false)];
    assert more[..|chain.done|] == chain.done;
    assert WellFed(c, more);
  }

  lemma TmpPrivateKept(c: Codec, s: State, a: Action)
    requires Inv(c, s) && Enabled(c, s, a)
    ensures TmpPrivate(Apply(c, s, a))
  {
    hide Apply;
    hide Live;
    hide Newcomer;
    var s' := Apply(c, s, a);
    if TmpPath in s'.fs.dir {
      TmpAfter(c, s, a);
      forall p | Live(s', p) ensures p.inode != s'.fs.dir[TmpPath] {
        LiveAfter(c, s, a, p);
        NotStagedThere(c, s, a, p);
      }
    }
  }

  /** The staging path names the inode it named before, or a new one. */
  lemma TmpAfter(c: Codec, s: State, a: Action)
    requires Inv(c, s) && Enabled(c, s, a) && TmpPath in Apply(c, s, a).fs.dir
    ensures var s' := Apply(c, s, a);
      && !a.Install? && !a.RenameNew?
      && (DbPath in s'.fs.dir <==> DbPath in s.fs.dir)
      && (DbPath in s.fs.dir ==> s'.fs.dir[DbPath] == s.fs.dir[DbPath])
      && s'.fs.dir[TmpPath] == (if TmpPath in s.fs.dir then s.fs.dir[TmpPath] else s.fs.next)
      && (DbPath in s'.fs.dir ==> s'.fs.dir[DbPath] != s'.fs.dir[TmpPath])
  {
    hide Compact;
    hide Load;
    hide WriterOk;
    hide LiveBacked;
    hide PathOk;
    hide Unused;
    hide Live;
  }

  lemma NotStagedThere(c: Codec, s: State, a: Action, p: Pinned)
    requires Inv(c, s) && Enabled(c, s, a) && TmpPath in Apply(c, s, a).fs.dir
    requires Live(s, p) || Newcomer(c, s, a, p)
    ensures p.inode != Apply(c, s, a).fs.dir[TmpPath]
  {
    hide Apply;
    hide Sound;
    hide Load;
    hide WriterOk;
    hide Chained;
    hide LogOk;
    hide BootChain;
    hide NextChain;
    TmpAfter(c, s, a);
    if Live(s, p) {
      assert Backed(c, s.fs, p);
    }
  }

  lemma CyclePlanOk(c: Codec, prev: Option<Pinned>, cycle: Cycle)
    requires PrintableCycle(c, cycle) && ShortCycle(c, cycle)
    requires prev.Some? ==> Sound(c, prev.value.snap)
    requires Compact(c, cycle, SnapOf(prev)).Ok?
    ensures PlanOk(c, prev, cycle, Compact(c, cycle, SnapOf(prev)).value)
  {
    hide Compact;
    hide Sound;
    hide ShortRecords;
    hide Load;
    hide Utf8;
    var made := Compact(c, cycle, SnapOf(prev)).value;
    CompactSound(c, cycle, SnapOf(prev));
    forall mtime ensures Load(c, made.file, mtime) == Ok(made) {
      ReloadAgreement(c, cycle, SnapOf(prev), mtime);
    }
    LoadKeepsFile(c, made.file, 0);
  }

  lemma StartCycleOk(c: Codec, s: State, cycle: Cycle)
    requires FsOk(s.fs) && LiveBacked(c, s) && Enabled(c, s, StartCycle(cycle))
    ensures WriterOk(c, Apply(c, s, StartCycle(cycle)))
  {
    hide Compact;
    hide Sound;
    hide PlanOk;
    hide Load;
    hide Chained;
    if Base(s).Some? {
      assert Live(s, Base(s).value);
    }
    if Compact(c, cycle, SnapOf(Base(s))).Ok? {
      CyclePlanOk(c, Base(s), cycle);
    }
  }

  lemma StageOk(c: Codec, s: State, mtime: nat)
    requires WriterOk(c, s) && Enabled(c, s, Stage(mtime))
    ensures WriterOk(c, Apply(c, s, Stage(mtime)))
  {
    hide Compact;
    hide Sound;
    hide PlanOk;
    hide Load;
    hide ShortRecords;
    hide Utf8;
    hide WellFed;
    LoadKeepsFile(c, s.fs.data[s.writer.inode], mtime);
    LoadSound(c, s.fs.data[s.writer.inode], mtime);
    FreshChained(c, s.fs.data[s.writer.inode], mtime);
  }

  lemma WriterOkKept(c: Codec, s: State, a: Action)
    requires Inv(c, s) && Enabled(c, s, a)
    ensures WriterOk(c, Apply(c, s, a))
  {
    hide Compact;
    hide PlanOk;
    hide Load;
    hide Backed;
    hide TmpPrivate;
    hide CompleteLog;
    hide PathOk;
    hide ShortRecords;
    hide Live;
    match a {
      case StartCycle(cycle) => StartCycleOk(c, s, cycle);
      case Stage(mtime) => StageOk(c, s, mtime);
      case Acquire(_) => StillStaged(c, s, a);
      case Release(_) => StillStaged(c, s, a);
      case Reclaim(_) => NotReclaimed(c, s, a);
      case _ =>
    }
  }

  lemma StillStaged(c: Codec, s: State, a: Action)
    requires WriterOk(c, s) && Enabled(c, s, a) && (a.Acquire? || a.Release?)
    ensures WriterOk(c, Apply(c, s, a))
  {
    hide PlanOk;
    hide Sound;
    hide CompleteLog;
    hide Chained;
  }

  lemma NotReclaimed(c: Codec, s: State, a: Action)
    requires WriterOk(c, s) && Enabled(c, s, a) && a.Reclaim?
    ensures WriterOk(c, Apply(c, s, a))
  {
    hide PlanOk;
    hide Sound;
    hide CompleteLog;
    hide Chained;
    hide Live;
  }

  lemma PathOkKept(c: Codec, s: State, a: Action)
    requires Inv(c, s) && Enabled(c, s, a)
    ensures PathOk(c, Apply(c, s, a))
  {
    hide Sound;
    hide LogOk;
    hide CompleteLog;
    hide Load;
    hide LiveBacked;
    hide Apply;
    PathBytesAfter(c, s, a);
    LogAfter(c, s, a);
    match a {
      case RenameNew => RenamedLogOk(c, s);
      case Install => InstalledLogOk(c, s);
      case _ =>
    }
  }

  /** The published log's history changes only when the log does. */
  lemma LogAfter(c: Codec, s: State, a: Action)
    requires Enabled(c, s, a)
    ensures Apply(c, s, a).log == match a
      case RenameNew => Some(NextChain(s.writer.prev, s.writer.cycle, s.writer.plan.value))
      case Install => Some(s.writer.pulled.chain)
      case _ => s.log
  {
    hide Compact;
    hide Load;
    hide Unused;
    hide NextChain;
    hide BootChain;
  }

  lemma RenamedLogOk(c: Codec, s: State)
    requires LiveBacked(c, s) && WriterOk(c, s) && Enabled(c, s, RenameNew)
    ensures var made := s.writer.plan.value;
      CompleteLog(c, made.file) && LogOk(c, NextChain(s.writer.prev, s.writer.cycle, made), made.file)
  {
    hide Compact;
    hide Sound;
    hide Load;
    hide CompleteLog;
    PrevChained(c, s, s.writer.prev);
    NextChained(c, s.writer.prev, s.writer.cycle, s.writer.plan.value);
  }

  lemma InstalledLogOk(c: Codec, s: State)
    requires WriterOk(c, s) && Enabled(c, s, Install)
    ensures CompleteLog(c, s.writer.pulled.snap.file) && LogOk(c, s.writer.pulled.chain, s.writer.pulled.snap.file)
  {
    hide Sound;
    hide Load;
    hide CompleteLog;
    hide WellFed;
  }

  /** The published path changes only when a complete new log is renamed over it: after a
      refresh, the log of the planned snapshot; after a pull, a staged file that has loaded. */
  lemma PathBytesAfter(c: Codec, s: State, a: Action)
    requires Inv(c, s) && Enabled(c, s, a)
    ensures var before, after := PublishedBytes(s.fs), PublishedBytes(Apply(c, s, a).fs);
      match a
      case RenameNew =>
        && after == Some(s.writer.plan.value.file)
        && PlanOk(c, s.writer.prev, s.writer.cycle, s.writer.plan.value)
      case Install => after == Some(s.writer.pulled.snap.file) && CompleteLog(c, s.writer.pulled.snap.file)
      case _ => after == before
  {
    hide Compact;
    hide Sound;
    hide PlanOk;
    hide CompleteLog;
    hide Load;
    hide LiveBacked;
    hide Chained;
    hide LogOk;
    hide Live;
  }

  lemma InvKept(c: Codec, s: State, a: Action)
    requires Inv(c, s) && Enabled(c, s, a)
    ensures Inv(c, Apply(c, s, a))
  {
    hide FsOk;
    hide LiveBacked;
    hide TmpPrivate;
    hide PathOk;
    hide WriterOk;
    hide Apply;
    FsKept(c, s, a);
    LiveBackedKept(c, s, a);
    TmpPrivateKept(c, s, a);
    PathOkKept(c, s, a);
    WriterOkKept(c, s, a);
  }

  // ---------------------------------------------------------------- whole behaviours

  /** `trace` is a run of the system: it starts before the first boot and every state comes
      from the one before by an enabled action. */
  ghost predicate Behaviour(c: Codec, trace: seq<State>, actions: seq<Action>) {
    && |trace| == |actions| + 1
    && Initial(c, trace[0])
    && forall i :: 0 <= i < |actions| ==>
         Enabled(c, trace[i], actions[i]) && trace[i + 1] == Apply(c, trace[i], actions[i])
  }

  lemma InitialInv(c: Codec, s: State)
    requires Initial(c, s)
    ensures Inv(c, s)
  {
    hide ShortRecords;
    hide Utf8;
  }

  lemma {:induction false} AlwaysInv(c: Codec, trace: seq<State>, actions: seq<Action>, n: nat)
    requires Behaviour(c, trace, actions) && n < |trace|
    ensures Inv(c, trace[n])
  {
    hide Inv;
    hide Apply;
    hide Enabled;
    if n == 0 {
      InitialInv(c, trace[0]);
    } else {
      AlwaysInv(c, trace, actions, n - 1);
      InvKept(c, trace[n - 1], actions[n - 1]);
    }
  }

  /** In every reachable state, every snapshot in anyone's hands reads, from its own inode, a
      whole newline-free record of exactly the ticker looked up. */
  lemma EveryReaderServed(c: Codec, trace: seq<State>, actions: seq<Action>, n: nat, p: Pinned, t: Bytes)
    requires Behaviour(c, trace, actions) && n < |trace|
    requires Live(trace[n], p) && Find(p.snap, t).Some?
    ensures p.inode in trace[n].fs.data
    ensures var bytes, e := trace[n].fs.data[p.inode], Find(p.snap, t).value;
      && ReadRaw(bytes, e).Some? && NEWLINE !in ReadRaw(bytes, e).value
      && ReadValue(c, bytes, e).Some? && TickerOf(c, ReadValue(c, bytes, e).value) == t
  {
    hide Sound;
    hide Behaviour;
    AlwaysInv(c, trace, actions, n);
    assert Backed(c, trace[n].fs, p);
    SoundReads(c, p.snap, t);
  }

  /** A snapshot held over any stretch of a run reads the same bytes at both ends. */
  lemma {:induction false} HeldSnapshotsStable(c: Codec, trace: seq<State>, actions: seq<Action>,
                                               m: nat, n: nat, p: Pinned)
    requires Behaviour(c, trace, actions) && m <= n < |trace|
    requires forall k :: m <= k < n ==> Live(trace[k], p)
    requires Live(trace[m], p)
    ensures p.inode in trace[m].fs.data && p.inode in trace[n].fs.data
    ensures trace[n].fs.data[p.inode] == trace[m].fs.data[p.inode] == p.snap.file
    decreases n - m
  {
    hide Inv;
    hide Apply;
    hide Enabled;
    hide Live;
    if m < n {
      AlwaysInv(c, trace, actions, n - 1);
      PinnedNeverChanges(c, trace[n - 1], actions[n - 1], p);
      HeldSnapshotsStable(c, trace, actions, m, n - 1, p);
    } else {
      AlwaysInv(c, trace, actions, m);
      LiveHasBytes(c, trace[m], p);
    }
  }

  lemma LiveHasBytes(c: Codec, s: State, p: Pinned)
    requires Inv(c, s) && Live(s, p)
    ensures p.inode in s.fs.data && s.fs.data[p.inode] == p.snap.file
  {
    assert Backed(c, s.fs, p);
  }

  /** Crash atomicity: whenever the process dies, the path holds nothing or a log that the
      next boot loads into a sound snapshot. */
  lemma PathAlwaysLoads(c: Codec, trace: seq<State>, actions: seq<Action>, n: nat, mtime: nat)
    requires Behaviour(c, trace, actions) && n < |trace|
    requires PublishedBytes(trace[n].fs).Some?
    ensures Load(c, PublishedBytes(trace[n].fs).value, mtime).Ok?
    ensures Sound(c, Load(c, PublishedBytes(trace[n].fs).value, mtime).value)
  {
    hide Sound;
    hide Behaviour;
    hide ShortRecords;
    AlwaysInv(c, trace, actions, n);
    LoadSound(c, PublishedBytes(trace[n].fs).value, mtime);
  }

  lemma ChainFetch(c: Codec, chain: Chain, t: Bytes)
    requires ChainOk(c, chain) && t != []
    ensures Fetch(Replay(c, chain), t) == Dictated(c, Origin(c, chain), chain.done, t)
  {
    hide Sound;
    hide Fetch;
    hide Dictated;
    hide ShortRecords;
    LoadSound(c, chain.base, chain.mtime);
    WholeRun(c, Origin(c, chain), chain.done, t);
  }

  /** In every reachable state the record any snapshot in use holds for a ticker is the one
      dictated by the cycles run since its log was first found, crawled or pulled, however
      readers, failures, crashes and restarts interleave. */
  lemma ServedRecordIsHistory(c: Codec, trace: seq<State>, actions: seq<Action>, n: nat, p: Pinned, t: Bytes)
    requires Behaviour(c, trace, actions) && n < |trace| && t != []
    requires Live(trace[n], p)
    ensures ChainOk(c, p.chain)
    ensures Fetch(p.snap, t) == Dictated(c, Origin(c, p.chain), p.chain.done, t)
  {
    hide Sound;
    hide Behaviour;
    hide Fetch;
    hide Dictated;
    hide ChainOk;
    hide Replay;
    AlwaysInv(c, trace, actions, n);
    assert Backed(c, trace[n].fs, p);
    ChainFetch(c, p.chain, t);
  }

  lemma FetchIgnoresMtime(c: Codec, bytes: Bytes, m: nat, n: nat, t: Bytes)
    requires Utf8(bytes)
    ensures Fetch(Load(c, bytes, m).value, t) == Fetch(Load(c, bytes, n).value, t)
  {
    hide Utf8;
    hide BuildIndex;
    hide Entries;
  }

  /** And what the next boot will load, whenever the process dies, is what the history of the
      published log dictates: nothing is forgotten at a restart. */
  lemma BootServesHistory(c: Codec, trace: seq<State>, actions: seq<Action>, n: nat, mtime: nat, t: Bytes)
    requires Behaviour(c, trace, actions) && n < |trace| && t != []
    requires PublishedBytes(trace[n].fs).Some?
    ensures trace[n].log.Some? && ChainOk(c, trace[n].log.value)
    ensures Load(c, PublishedBytes(trace[n].fs).value, mtime).Ok?
    ensures Fetch(Load(c, PublishedBytes(trace[n].fs).value, mtime).value, t)
      == Dictated(c, Origin(c, trace[n].log.value), trace[n].log.value.done, t)
  {
    hide Behaviour;
    hide Fetch;
    hide Dictated;
    AlwaysInv(c, trace, actions, n);
    LogFetch(c, trace[n].log.value, PublishedBytes(trace[n].fs).value, mtime, t);
  }

  lemma LogFetch(c: Codec, chain: Chain, bytes: Bytes, mtime: nat, t: Bytes)
    requires LogOk(c, chain, bytes) && CompleteLog(c, bytes) && t != []
    ensures Load(c, bytes, mtime).Ok?
    ensures Fetch(Load(c, bytes, mtime).value, t) == Dictated(c, Origin(c, chain), chain.done, t)
  {
    hide Fetch;
    hide Dictated;
    hide Utf8;
    hide ShortRecords;
    ChainFetch(c, chain, t);
    if chain.done == [] {
      FetchIgnoresMtime(c, bytes, mtime, chain.mtime, t);
    }
  }

  // ---------------------------------------------------------------- what that history is

  /** What a run has published: the log it started from (the one found, the last one crawled
      from nothing or the last one pulled) and the cycles renamed into place since. */
  function Published(trace: seq<State>, actions: seq<Action>, n: nat): (Option<Bytes>, seq<Attempt>)
    requires n < |trace| && |trace| == |actions| + 1
  {
    if n == 0 then (PublishedBytes(trace[0].fs), [])
    else
      var before, s := Published(trace, actions, n - 1), trace[n - 1];
      match actions[n - 1]
      case Install => (PublishedBytes(trace[n].fs), [])
      case RenameNew =>
        if s.writer.Writing? && s.writer.prev.Some? then (before.0, before.1 + [Attempt(s.writer.cycle, false)])
        else (PublishedBytes(trace[n].fs), [])
      case _ => before
  }

  predicate SameLine(p: Pinned, log: Option<Chain>) {
    log.Some? && p.chain.base == log.value.base && p.chain.done == log.value.done
  }

  /** Whoever a cycle may be merged with is in line with the published log; a cycle between its
      rename and its swap, or a pull about to be served, is itself that log. */
  predicate InLine(s: State) {
    match s.writer
    case Renamed(prev, cycle, _, made) => s.log == Some(NextChain(prev, cycle, made))
    case Opened(_, _, built) => s.log == Some(built.chain)
    case Installed(got) => s.log == Some(got.chain)
    case _ => Base(s).Some? ==> SameLine(Base(s).value, s.log)
  }

  /** A cycle fails after its log was renamed into place and before it is swapped in. */
  predicate LosesStep(s: State, a: Action) {
    a.Fail? && s.writer.Renamed?
  }

  lemma InLineKept(c: Codec, s: State, a: Action)
    requires Inv(c, s) && Enabled(c, s, a) && InLine(s) && !LosesStep(s, a)
    ensures InLine(Apply(c, s, a))
  {
    hide Compact;
    hide Sound;
    hide Load;
    hide LiveBacked;
    hide TmpPrivate;
    hide CompleteLog;
    hide PlanOk;
    hide Unused;
    hide Chained;
    hide Replay;
    hide ChainOk;
  }

  lemma PublishedStep(c: Codec, s: State, a: Action, base: Option<Bytes>, done: seq<Attempt>)
    requires Inv(c, s) && Enabled(c, s, a) && InLine(s)
    requires s.log.Some? ==> base == Some(s.log.value.base) && done == s.log.value.done
    ensures var s' := Apply(c, s, a);
      s'.log.Some? ==> (Some(s'.log.value.base), s'.log.value.done) == match a
        case Install => (PublishedBytes(s'.fs), [])
        case RenameNew =>
          if s.writer.prev.Some? then (base, done + [Attempt(s.writer.cycle, false)]) else (PublishedBytes(s'.fs), [])
        case _ => (base, done)
  {
    hide Sound;
    hide Load;
    hide LiveBacked;
    hide TmpPrivate;
    hide PathOk;
    hide CompleteLog;
    hide PlanOk;
    hide Apply;
    hide Chained;
    LogAfter(c, s, a);
    PathBytesAfter(c, s, a);
  }

  /** The history of the published log is the run of everything published: no restart cuts it
      short, as long as no cycle fails between its rename and its swap. */
  lemma {:induction false} LogIsPublished(c: Codec, trace: seq<State>, actions: seq<Action>, n: nat)
    requires Behaviour(c, trace, actions) && n < |trace|
    requires forall k :: 0 <= k < n ==> !LosesStep(trace[k], actions[k])
    ensures InLine(trace[n])
    ensures trace[n].log.Some? ==>
      (Some(trace[n].log.value.base), trace[n].log.value.done) == Published(trace, actions, n)
  {
    hide Inv;
    hide Apply;
    hide Enabled;
    if n > 0 {
      LogIsPublished(c, trace, actions, n - 1);
      AlwaysInv(c, trace, actions, n - 1);
      InLineKept(c, trace[n - 1], actions[n - 1]);
      var (base, done) := Published(trace, actions, n - 1);
      PublishedStep(c, trace[n - 1], actions[n - 1], base, done);
      OnlyWritingRenames(c, trace[n - 1], actions[n - 1]);
    }
  }

  lemma OnlyWritingRenames(c: Codec, s: State, a: Action)
    requires Enabled(c, s, a)
    ensures a.RenameNew? ==> s.writer.Writing?
  {}

  /** So, whenever the process dies, the next boot serves what the run of everything published
      since the first boot, the last initial crawl or the last pull dictates. */
  lemma BootServesPublished(c: Codec, trace: seq<State>, actions: seq<Action>, n: nat, mtime: nat, t: Bytes)
    requires Behaviour(c, trace, actions) && n < |trace| && t != []
    requires forall k :: 0 <= k < n ==> !LosesStep(trace[k], actions[k])
    requires PublishedBytes(trace[n].fs).Some?
    ensures Load(c, PublishedBytes(trace[n].fs).value, mtime).Ok?
    ensures var (base, done) := Published(trace, actions, n);
      base.Some? && exists m ::
        Load(c, base.value, m).Ok? && Fetch(Load(c, PublishedBytes(trace[n].fs).value, mtime).value, t)
          == Dictated(c, Load(c, base.value, m).value, done, t)
  {
    hide Behaviour;
    hide Fetch;
    hide Dictated;
    hide Published;
    LogIsPublished(c, trace, actions, n);
    BootServesHistory(c, trace, actions, n, mtime, t);
    assert Load(c, trace[n].log.value.base, trace[n].log.value.mtime).Ok?;
  }

  // ---------------------------------------------------------------- what the steps bring about

  /** What is served is what was last brought into service since the process started. */
  function LastServed(trace: seq<State>, actions: seq<Action>, n: nat): Option<Pinned>
    requires n < |trace| && |trace| == |actions| + 1
  {
    if n == 0 then None
    else
      var s := trace[n - 1];
      match actions[n - 1]
      case Swap => if s.writer.Opened? then Some(s.writer.built) else None
      case ServePulled => if s.writer.Installed? then Some(s.writer.got) else None
      case ServeHeld => s.held
      case Crash => None
      case _ => LastServed(trace, actions, n - 1)
  }

  lemma ServerAfter(c: Codec, s: State, a: Action)
    requires Enabled(c, s, a)
    ensures Apply(c, s, a).server == match a
      case Swap => Some(s.writer.built)
      case ServePulled => Some(s.writer.got)
      case ServeHeld => s.held
      case Crash => None
      case _ => s.server
  {
    hide Compact;
    hide Load;
    hide Unused;
    hide NextChain;
    hide BootChain;
  }

  lemma {:induction false} ServerIsLastServed(c: Codec, trace: seq<State>, actions: seq<Action>, n: nat)
    requires Behaviour(c, trace, actions) && n < |trace|
    ensures trace[n].server == LastServed(trace, actions, n)
  {
    hide Apply;
    if n > 0 {
      ServerIsLastServed(c, trace, actions, n - 1);
      assert Enabled(c, trace[n - 1], actions[n - 1]) && trace[n] == Apply(c, trace[n - 1], actions[n - 1]);
      ServerAfter(c, trace[n - 1], actions[n - 1]);
    }
  }

  lemma ReadersAfter(c: Codec, s: State, a: Action, r: nat, p: Pinned)
    requires Enabled(c, s, a) && a != Release(r) && a != Crash
    requires (r in s.readers && s.readers[r] == p) || (a == Acquire(r) && s.server == Some(p))
    ensures r in Apply(c, s, a).readers && Apply(c, s, a).readers[r] == p
  {
    hide Compact;
    hide Load;
    hide Unused;
    hide NextChain;
    hide BootChain;
  }

  /** A reader has what was served when it came, until it leaves, whatever is swapped in. */
  lemma {:induction false} ReaderKeepsItsSnapshot(c: Codec, trace: seq<State>, actions: seq<Action>,
                                                  k: nat, n: nat, r: nat)
    requires Behaviour(c, trace, actions) && k < n < |trace| && actions[k] == Acquire(r)
    requires forall i :: k < i < n ==> actions[i] != Release(r) && actions[i] != Crash
    ensures r in trace[n].readers && Some(trace[n].readers[r]) == trace[k].server
  {
    hide Apply;
    var i := n - 1;
    assert Enabled(c, trace[k], actions[k]) && Enabled(c, trace[i], actions[i]);
    assert trace[n] == Apply(c, trace[i], actions[i]);
    if i > k {
      ReaderKeepsItsSnapshot(c, trace, actions, k, i, r);
    }
    ReadersAfter(c, trace[i], actions[i], r, trace[k].server.value);
  }

  /** A crash leaves the disk as it is and nobody with anything in hand. */
  lemma NobodyAfterCrash(c: Codec, s: State, p: Pinned)
    ensures var s' := Apply(c, s, Crash); s'.fs == s.fs && s'.log == s.log && s'.writer == Idle && !Live(s', p)
  {}

  /** A run of steps from one state to another. */
  ghost predicate Steps(c: Codec, s: State, actions: seq<Action>, t: State)
    decreases |actions|
  {
    if actions == [] then s == t
    else Enabled(c, s, actions[0]) && Steps(c, Apply(c, s, actions[0]), actions[1..], t)
  }

  lemma OneStep(c: Codec, s: State, a: Action, rest: seq<Action>, t: State)
    requires Enabled(c, s, a) && Steps(c, Apply(c, s, a), rest, t)
    ensures Steps(c, s, [a] + rest, t)
  {
    assert ([a] + rest)[1..] == rest;
  }

  lemma NoSteps(c: Codec, s: State)
    ensures Steps(c, s, [], s)
  {}

  /** The snapshot is served, and its log is at the path. */
  predicate GoneLive(t: State, made: Snapshot) {
    t.server.Some? && t.server.value.snap == made && PublishedBytes(t.fs) == Some(made.file) && t.writer == Idle
  }

  /** The steps can be taken, one after another, and then the snapshot is served. */
  ghost predicate Reaches(c: Codec, s: State, actions: seq<Action>, made: Snapshot) {
    exists t :: Steps(c, s, actions, t) && GoneLive(t, made)
  }

  lemma SwapGoesLive(c: Codec, s: State)
    requires s.writer.Renamed? && DbPath in s.fs.dir && PublishedBytes(s.fs) == Some(s.writer.made.file)
    ensures Reaches(c, s, [OpenNew, Swap], s.writer.made)
  {
    hide NextChain;
    var s1 := Apply(c, s, OpenNew);
    var s2 := Apply(c, s1, Swap);
    NoSteps(c, s2);
    OneStep(c, s1, Swap, [], s2);
    OneStep(c, s, OpenNew, [Swap], s2);
    assert [Swap] + [] == [Swap] && [OpenNew] + [Swap] == [OpenNew, Swap];
  }

  lemma RenameGoesLive(c: Codec, s: State, made: Snapshot)
    requires s.writer.Writing? && s.writer.plan == Ok(made) && TmpPath in s.fs.dir
    requires s.fs.dir[TmpPath] == s.writer.inode && s.writer.inode in s.fs.data
    requires s.fs.data[s.writer.inode] == made.file
    ensures Reaches(c, s, [RenameNew, OpenNew, Swap], made)
  {
    hide NextChain;
    var s1 := Apply(c, s, RenameNew);
    SwapGoesLive(c, s1);
    var t :| Steps(c, s1, [OpenNew, Swap], t) && GoneLive(t, made);
    OneStep(c, s, RenameNew, [OpenNew, Swap], t);
    assert [RenameNew] + [OpenNew, Swap] == [RenameNew, OpenNew, Swap];
  }

  /** A cycle whose crawl succeeds can be run to its end, from any reachable state in which the
      writer is idle: its log is then at the path and its snapshot served. */
  lemma CycleGoesLive(c: Codec, s: State, cycle: Cycle)
    requires Inv(c, s) && Enabled(c, s, StartCycle(cycle)) && Compact(c, cycle, SnapOf(Base(s))).Ok?
    ensures var made := Compact(c, cycle, SnapOf(Base(s))).value;
      Reaches(c, s, [StartCycle(cycle), Append(made.file), RenameNew, OpenNew, Swap], made)
  {
    hide Compact;
    hide LiveBacked;
    hide PathOk;
    hide TmpPrivate;
    var made := Compact(c, cycle, SnapOf(Base(s))).value;
    var s1 := Apply(c, s, StartCycle(cycle));
    assert s1.fs.data[s1.writer.inode] == [];
    assert [] + made.file == made.file;
    var s2 := Apply(c, s1, Append(made.file));
    RenameGoesLive(c, s2, made);
    hide Apply;
    hide Enabled;
    hide GoneLive;
    var t :| Steps(c, s2, [RenameNew, OpenNew, Swap], t) && GoneLive(t, made);
    OneStep(c, s1, Append(made.file), [RenameNew, OpenNew, Swap], t);
    OneStep(c, s, StartCycle(cycle), [Append(made.file)] + [RenameNew, OpenNew, Swap], t);
    assert [StartCycle(cycle)] + ([Append(made.file)] + [RenameNew, OpenNew, Swap])
      == [StartCycle(cycle), Append(made.file), RenameNew, OpenNew, Swap];
  }

  /** What the steps have put in the staging file since it was created. */
  function Staging(actions: seq<Action>, n: nat): Bytes
    requires n <= |actions|
  {
    if n == 0 then []
    else
      match actions[n - 1]
      case StartCycle(_) => []
      case StartPull => []
      case Append(chunk) => Staging(actions, n - 1) + chunk
      case Receive(chunk) => Staging(actions, n - 1) + chunk
      case _ => Staging(actions, n - 1)
  }

  predicate StagingHolds(s: State, bytes: Bytes) {
    match s.writer
    case Writing(_, _, inode, _) => inode in s.fs.data && s.fs.data[inode] == bytes
    case Receiving(inode) => inode in s.fs.data && s.fs.data[inode] == bytes
    case Staged(p) => p.snap.file == bytes
    case Renamed(_, _, _, made) => made.file == bytes
    case _ => true
  }

  lemma StagingAfter(c: Codec, s: State, a: Action, bytes: Bytes)
    requires Enabled(c, s, a) && StagingHolds(s, bytes)
    ensures StagingHolds(Apply(c, s, a), match a
      case StartCycle(_) => []
      case StartPull => []
      case Append(chunk) => bytes + chunk
      case Receive(chunk) => bytes + chunk
      case _ => bytes)
  {
    hide Compact;
    hide Live;
    hide NextChain;
    hide BootChain;
    hide Utf8;
    hide ShortRecords;
    hide BuildIndex;
  }

  /** The staging file holds, byte for byte, what was appended or received, and what is staged
      or renamed into place is just that. */
  lemma {:induction false} StagingIsWhatCame(c: Codec, trace: seq<State>, actions: seq<Action>, n: nat)
    requires Behaviour(c, trace, actions) && n < |trace|
    ensures StagingHolds(trace[n], Staging(actions, n))
  {
    hide Apply;
    hide Enabled;
    hide StagingHolds;
    if n > 0 {
      StagingIsWhatCame(c, trace, actions, n - 1);
      StagingAfter(c, trace[n - 1], actions[n - 1], Staging(actions, n - 1));
    } else {
      NothingStaged(c, trace[0]);
    }
  }

  lemma NothingStaged(c: Codec, s: State)
    requires Initial(c, s)
    ensures StagingHolds(s, [])
  {}

  /** A boot can serve what it finds. */
  lemma BootGoesLive(c: Codec, s: State, mtime: nat)
    requires Enabled(c, s, BootLoad(mtime))
    ensures Reaches(c, s, [BootLoad(mtime), ServeHeld], Load(c, PublishedBytes(s.fs).value, mtime).value)
  {
    LoadKeepsFile(c, PublishedBytes(s.fs).value, mtime);
    hide Load;
    hide BootChain;
    var s1 := Apply(c, s, BootLoad(mtime));
    var s2 := Apply(c, s1, ServeHeld);
    NoSteps(c, s2);
    OneStep(c, s1, ServeHeld, [], s2);
    OneStep(c, s, BootLoad(mtime), [ServeHeld], s2);
    assert [ServeHeld] + [] == [ServeHeld] && [BootLoad(mtime)] + [ServeHeld] == [BootLoad(mtime), ServeHeld];
  }

  /** A boot can serve what it pulls, once it loads. */
  lemma PullGoesLive(c: Codec, s: State, bytes: Bytes, mtime: nat)
    requires Inv(c, s) && Enabled(c, s, StartPull)
    requires Load(c, bytes, mtime).Ok? && ShortRecords(c, bytes)
    ensures Reaches(c, s, [StartPull, Receive(bytes), Stage(mtime), Install, ServePulled], Load(c, bytes, mtime).value)
  {
    hide Load;
    hide LiveBacked;
    hide PathOk;
    hide TmpPrivate;
    var s1 := Apply(c, s, StartPull);
    assert s1.fs.data[s1.writer.inode] == [];
    assert [] + bytes == bytes;
    var s2 := Apply(c, s1, Receive(bytes));
    InstallGoesLive(c, s2, bytes, mtime);
    hide Apply;
    hide Enabled;
    hide GoneLive;
    var t :| Steps(c, s2, [Stage(mtime), Install, ServePulled], t) && GoneLive(t, Load(c, bytes, mtime).value);
    OneStep(c, s1, Receive(bytes), [Stage(mtime), Install, ServePulled], t);
    OneStep(c, s, StartPull, [Receive(bytes)] + [Stage(mtime), Install, ServePulled], t);
    assert [StartPull] + ([Receive(bytes)] + [Stage(mtime), Install, ServePulled])
      == [StartPull, Receive(bytes), Stage(mtime), Install, ServePulled];
  }

  lemma InstallGoesLive(c: Codec, s: State, bytes: Bytes, mtime: nat)
    requires s.writer.Receiving? && TmpPath in s.fs.dir && s.fs.dir[TmpPath] == s.writer.inode
    requires s.writer.inode in s.fs.data && s.fs.data[s.writer.inode] == bytes
    requires Load(c, bytes, mtime).Ok? && ShortRecords(c, bytes)
    ensures Reaches(c, s, [Stage(mtime), Install, ServePulled], Load(c, bytes, mtime).value)
  {
    LoadKeepsFile(c, bytes, mtime);
    hide Load;
    hide ShortRecords;
    var s1 := Apply(c, s, Stage(mtime));
    var s2 := Apply(c, s1, Install);
    var s3 := Apply(c, s2, ServePulled);
    NoSteps(c, s3);
    OneStep(c, s2, ServePulled, [], s3);
    OneStep(c, s1, Install, [ServePulled], s3);
    OneStep(c, s, Stage(mtime), [Install, ServePulled], s3);
    assert [ServePulled] + [] == [ServePulled] && [Install] + [ServePulled] == [Install, ServePulled];
    assert [Stage(mtime)] + [Install, ServePulled] == [Stage(mtime), Install, ServePulled];
  }

  /** A failure leaves what is served and what is published as they were, a failed pull also no
      staging file, and the writer free for the next cycle. */
  lemma FailureLeavesService(c: Codec, s: State, remove: bool, next: Cycle)
    requires FsOk(s.fs) && Enabled(c, s, Fail(remove))
    ensures var t := Apply(c, s, Fail(remove));
      && t.server == s.server && t.held == s.held && t.readers == s.readers && t.log == s.log
      && PublishedBytes(t.fs) == PublishedBytes(s.fs)
      && (remove ==> TmpPath !in t.fs.dir)
      && (MayRebuild(s) && PrintableCycle(c, next) && ShortCycle(c, next) ==> Enabled(c, t, StartCycle(next)))
  {
    hide PrintableCycle;
    hide ShortCycle;
  }

  /** The last reader of a superseded log lets the file system have its space back. */
  lemma SupersededIsReclaimed(c: Codec, s: State, r: nat)
    requires r in s.readers
    requires var p := s.readers[r];
      && p.inode in s.fs.data && !WriterHas(s.writer, p.inode)
      && (forall path :: path in s.fs.dir ==> s.fs.dir[path] != p.inode)
      && (forall q :: Live(s.(readers := s.readers - {r}), q) ==> q.inode != p.inode)
    ensures var inode := s.readers[r].inode;
      exists t :: Steps(c, s, [Release(r), Reclaim(inode)], t) && inode !in t.fs.data && r !in t.readers
  {
    var inode := s.readers[r].inode;
    var s1 := Apply(c, s, Release(r));
    assert Unused(s1, inode);
    var s2 := Apply(c, s1, Reclaim(inode));
    NoSteps(c, s2);
    OneStep(c, s1, Reclaim(inode), [], s2);
    OneStep(c, s, Release(r), [Reclaim(inode)], s2);
    assert [Reclaim(inode)] + [] == [Reclaim(inode)] && [Release(r)] + [Reclaim(inode)] == [Release(r), Reclaim(inode)];
  }
}
