/** The handle every thread shares (`Database` in `src/database.rs`) and the loop that
    refreshes what it holds (`spawn_refresh_loop` in `src/refresh.rs`). */
module RefreshLoop {
  import opened ByteStrings
  import opened Outcomes
  import opened Records
  import opened Log
  import opened Database
  import opened Compaction
  import opened Refresh
  import opened History

  /** One pointer to the snapshot being served.  Readers copy it and keep their copy. */
  class Handle {
    var inner: Snapshot

    constructor (snapshot: Snapshot)
      ensures inner == snapshot
    {
      inner := snapshot;
    }

    method Current() returns (snapshot: Snapshot)
      ensures snapshot == inner
    {
      snapshot := inner;
    }

    method Swap(snapshot: Snapshot)
      modifies this
      ensures inner == snapshot
    {
      inner := snapshot;
    }
  }

  /** What one turn of the loop meets outside: its cycle, the room on the device, and whether
      the flush, the sync, the rename or the reopening fails. */
  datatype Turn = Turn(cycle: Cycle, capacity: nat, publishFails: bool)

  ghost predicate TurnFails(c: Codec, s: Snapshot, turn: Turn) {
    turn.publishFails
    || (Compact(c, turn.cycle, Some(s)).Ok? && |Compact(c, turn.cycle, Some(s)).value.file| > turn.capacity)
  }

  /** The turns as attempts of the run they make. */
  ghost function Attempts(c: Codec, boot: Snapshot, turns: seq<Turn>): seq<Attempt> {
    if turns == [] then []
    else
      var front, last := turns[..|turns| - 1], turns[|turns| - 1];
      var before := Attempts(c, boot, front);
      before + [Attempt(last.cycle, TurnFails(c, Run(c, boot, before), last))]
  }

  lemma {:induction false} AttemptsMatch(c: Codec, boot: Snapshot, turns: seq<Turn>)
    ensures |Attempts(c, boot, turns)| == |turns|
    ensures forall i :: 0 <= i < |turns| ==> Attempts(c, boot, turns)[i].cycle == turns[i].cycle
  {
    hide TurnFails;
    hide Run;
    if turns != [] {
      AttemptsMatch(c, boot, turns[..|turns| - 1]);
    }
  }

  lemma OneMoreTurn(c: Codec, boot: Snapshot, turns: seq<Turn>, n: nat)
    requires n < |turns|
    ensures var before := Attempts(c, boot, turns[..n]); var a := Attempts(c, boot, turns[..n + 1]);
      && |a| == n + 1
      && a == before + [Attempt(turns[n].cycle, TurnFails(c, Run(c, boot, before), turns[n]))]
      && Run(c, boot, a) == After(c, Run(c, boot, before), a[n])
  {
    hide After;
    hide TurnFails;
    assert turns[..n + 1][..n] == turns[..n];
    AttemptsMatch(c, boot, turns[..n]);
    var before := Attempts(c, boot, turns[..n]);
    assert Attempts(c, boot, turns[..n + 1])[..n] == before;
  }

  ghost predicate FedWell(c: Codec, turns: seq<Turn>) {
    forall i :: 0 <= i < |turns| ==> PrintableCycle(c, turns[i].cycle) && ShortCycle(c, turns[i].cycle)
  }

  lemma FedWellRun(c: Codec, boot: Snapshot, turns: seq<Turn>, n: nat)
    requires Sound(c, boot) && FedWell(c, turns) && n <= |turns|
    ensures WellFed(c, Attempts(c, boot, turns[..n]))
    ensures Sound(c, Run(c, boot, Attempts(c, boot, turns[..n])))
  {
    hide Sound;
    hide PrintableCycle;
    hide ShortCycle;
    var attempts := Attempts(c, boot, turns[..n]);
    AttemptsMatch(c, boot, turns[..n]);
    forall a | a in attempts ensures PrintableCycle(c, a.cycle) && ShortCycle(c, a.cycle) {
      var i :| 0 <= i < n && attempts[i] == a;
      assert a.cycle == turns[i].cycle;
    }
    RunSound(c, boot, attempts);
  }

  /** One turn: build a snapshot beside the served one, and swap only on success. */
  method RefreshOnce(c: Codec, db: Handle, turn: Turn)
    requires Sound(c, db.inner)
    modifies db
    ensures db.inner == After(c, old(db.inner), Attempt(turn.cycle, TurnFails(c, old(db.inner), turn)))
    ensures var made := Compact(c, turn.cycle, Some(old(db.inner)));
      db.inner == if made.Ok? && |made.value.file| <= turn.capacity && !turn.publishFails
                  then made.value else old(db.inner)
  {
    hide Sound;
    hide Compact;
    var prev := db.Current();
    assert StrictlySorted(prev.index) by { SoundIsSorted(c, prev); }
    var file := new LogWriter(turn.capacity);
    var made := FullCrawlAndCompact(c, file, turn.cycle, Some(prev));
    if made.Ok? && !turn.publishFails {
      db.Swap(made.value);
    }
  }

  /** Any number of turns serve exactly what the run of their attempts dictates: a failed
      turn leaves the previous snapshot untouched, a successful one replaces it whole. */
  method SpawnRefreshLoop(c: Codec, db: Handle, turns: seq<Turn>)
    requires Sound(c, db.inner) && FedWell(c, turns)
    modifies db
    ensures Sound(c, db.inner)
    ensures db.inner == Run(c, old(db.inner), Attempts(c, old(db.inner), turns))
  {
    hide Sound;
    hide After;
    hide TurnFails;
    hide FedWell;
    hide Attempts;
    hide Run;
    ghost var boot := db.inner;
    assert turns[..0] == [];
    NoTurns(c, boot);
    for i := 0 to |turns|
      invariant Sound(c, db.inner)
      invariant db.inner == Run(c, boot, Attempts(c, boot, turns[..i]))
    {
      RefreshOnce(c, db, turns[i]);
      OneMoreTurn(c, boot, turns, i);
      FedWellRun(c, boot, turns, i + 1);
    }
    assert turns[..|turns|] == turns;
  }

  lemma NoTurns(c: Codec, boot: Snapshot)
    ensures Run(c, boot, Attempts(c, boot, [])) == boot
  {}

  /** So every served record is the one the history dictates. */
  lemma LoopServesHistory(c: Codec, boot: Snapshot, turns: seq<Turn>, t: Bytes)
    requires Sound(c, boot) && FedWell(c, turns) && t != []
    ensures Fetch(Run(c, boot, Attempts(c, boot, turns)), t) == Dictated(c, boot, Attempts(c, boot, turns), t)
  {
    hide Sound;
    hide Fetch;
    hide Dictated;
    assert turns[..|turns|] == turns;
    FedWellRun(c, boot, turns, |turns|);
    WholeRun(c, boot, Attempts(c, boot, turns), t);
  }
}
