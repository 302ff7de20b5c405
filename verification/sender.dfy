/** The exclusive "send my database" operation (`handle_request_pull` in
    `src/p2p_db_server.rs`): any number of request handlers, one lock, one raw-transfer port,
    and a database whose snapshot may be swapped at any moment. */
module Sender {
  import opened ByteStrings
  import opened Outcomes
  import opened Log

  type Address = nat

  datatype Reply = Accepted | Busy | BindFailed

  /** Where a handler is.  A phase from `Locked` to `Releasing` holds the lock; a phase from
      `Bound` to `Closing` has the raw port open.  `peer` and `to` are the far end of the
      connection accepted, as the accept reported it. */
  datatype Phase =
    | Arrived
    | Locked
    | SnapshotPinned
    | Bound
    | Accepting
    | Closing(peer: Option<Address>)
    | Closed(to: Address)
    | Streaming(to: Address)
    | Releasing
    | Done

  /** `pinned` is the snapshot taken for this request; `ownPort` tells whether the handler
      ever had the port bound. */
  datatype Handler = Handler(ip: Address, phase: Phase, replies: seq<Reply>, pinned: Option<Snapshot>, ownPort: bool)

  /** One stream of a snapshot's bytes to a peer. */
  datatype Transfer = Transfer(handler: nat, snap: Snapshot, to: Address)

  datatype State = State(
    handlers: map<nat, Handler>,
    lock: Option<nat>,
    listener: Option<nat>,
    current: Snapshot,
    transfers: seq<Transfer>)

  /** `DbInfo` answers a peer's question, on some connection, with the snapshot of the moment. */
  datatype Action =
    | DbInfo(ip: Address)
    | Arrive(h: nat, ip: Address)
    | TryLock(h: nat)
    | Pin(h: nat)
    | Bind(h: nat)
    | BindFails(h: nat)
    | NonblockingFails(h: nat)
    | ReplyOk(h: nat)
    | AcceptOther(h: nat, ip: Address)
    | AcceptRequester(h: nat, ip: Address)
    | GiveUp(h: nat)
    | CloseListener(h: nat)
    | BlockingFails(h: nat)
    | StartStream(h: nat)
    | EndStream(h: nat)
    | Unlock(h: nat)
    | SwapDatabase(snap: Snapshot)

  predicate At(s: State, h: nat, phase: Phase) {
    h in s.handlers && s.handlers[h].phase == phase
  }

  predicate Enabled(s: State, a: Action) {
    match a
    case DbInfo(_) => true
    case Arrive(h, _) => h !in s.handlers
    case TryLock(h) => At(s, h, Arrived)
    case Pin(h) => At(s, h, Locked)
    case Bind(h) => At(s, h, SnapshotPinned)
    case BindFails(h) => At(s, h, SnapshotPinned)
    case NonblockingFails(h) => At(s, h, Bound)
    case ReplyOk(h) => At(s, h, Bound)
    case AcceptOther(h, ip) => At(s, h, Accepting) && ip != s.handlers[h].ip
    case AcceptRequester(h, ip) => At(s, h, Accepting) && ip == s.handlers[h].ip
    case GiveUp(h) => At(s, h, Accepting)
    case CloseListener(h) => h in s.handlers && s.handlers[h].phase.Closing?
    case BlockingFails(h) => h in s.handlers && s.handlers[h].phase.Closed?
    case StartStream(h) => h in s.handlers && s.handlers[h].phase.Closed? && s.handlers[h].pinned.Some?
    case EndStream(h) => h in s.handlers && s.handlers[h].phase.Streaming?
    case Unlock(h) => At(s, h, Releasing)
    case SwapDatabase(_) => true
  }

  function Put(s: State, h: nat, x: Handler): State {
    s.(handlers := s.handlers[h := x])
  }

  function Move(s: State, h: nat, phase: Phase): State
    requires h in s.handlers
  {
    Put(s, h, s.handlers[h].(phase := phase))
  }

  function Answer(s: State, h: nat, phase: Phase, reply: Reply): State
    requires h in s.handlers
  {
    Put(s, h, s.handlers[h].(phase := phase, replies := s.handlers[h].replies + [reply]))
  }

  function Apply(s: State, a: Action): State
    requires Enabled(s, a)
  {
    match a
    case DbInfo(_) => s
    case Arrive(h, ip) => Put(s, h, Handler(ip, Arrived, [], None, false))
    case TryLock(h) =>
      if s.lock.None? then Move(s, h, Locked).(lock := Some(h)) else Answer(s, h, Done, Busy)
    case Pin(h) => Put(s, h, s.handlers[h].(phase := SnapshotPinned, pinned := Some(s.current)))
    case Bind(h) => Put(s, h, s.handlers[h].(phase := Bound, ownPort := true)).(listener := Some(h))
    case BindFails(h) => Answer(s, h, Releasing, BindFailed)
    case NonblockingFails(h) => Answer(s, h, Closing(None), BindFailed)
    case ReplyOk(h) => Answer(s, h, Accepting, Accepted)
    case AcceptOther(h, _) => s
    case AcceptRequester(h, ip) => Move(s, h, Closing(Some(ip)))
    case GiveUp(h) => Move(s, h, Closing(None))
    case CloseListener(h) =>
      var peer := s.handlers[h].phase.peer;
      Move(s, h, if peer.Some? then Closed(peer.value) else Releasing).(listener := None)
    case BlockingFails(h) => Move(s, h, Releasing)
    case StartStream(h) =>
      var to := s.handlers[h].phase.to;
      Move(s, h, Streaming(to)).(transfers := s.transfers + [Transfer(h, s.handlers[h].pinned.value, to)])
    case EndStream(h) => Move(s, h, Releasing)
    case Unlock(h) => Move(s, h, Done).(lock := None)
    case SwapDatabase(snap) => s.(current := snap)
  }

  predicate Initial(s: State) {
    s.handlers == map[] && s.lock == None && s.listener == None && s.transfers == []
  }

  // ---------------------------------------------------------------- the invariant

  predicate HoldsLock(p: Phase) {
    !p.Arrived? && !p.Done?
  }

  predicate HasPort(p: Phase) {
    p.Bound? || p.Accepting? || p.Closing?
  }

  /** What a handler has said and taken by each phase. */
  predicate HandlerOk(x: Handler) {
    && (x.phase.Arrived? || x.phase.Locked? ==> x.pinned.None?)
    && (!x.phase.Arrived? && !x.phase.Locked? && !x.phase.Done? ==> x.pinned.Some?)
    && (x.phase.Arrived? || x.phase.Locked? || x.phase.SnapshotPinned? || x.phase.Bound? ==> x.replies == [])
    && (!(x.phase.Arrived? || x.phase.Locked? || x.phase.SnapshotPinned? || x.phase.Bound?) ==> |x.replies| == 1)
    && (x.phase.Bound? || x.phase.Accepting? ==> x.ownPort)
    && (x.phase.Accepting? || (x.phase.Closing? && x.phase.peer.Some?) || x.phase.Closed? || x.phase.Streaming? ==>
          x.replies == [Accepted])
    && (x.phase.Closing? && x.phase.peer.Some? ==> x.phase.peer.value == x.ip)
    && (x.phase.Closed? ==> x.phase.to == x.ip)
    && (Accepted in x.replies ==> x.ownPort && x.pinned.Some?)
  }

  predicate LockOk(s: State) {
    && (forall h :: h in s.handlers ==> (HoldsLock(s.handlers[h].phase) <==> s.lock == Some(h)))
    && (s.lock.Some? ==> s.lock.value in s.handlers)
  }

  predicate PortOk(s: State) {
    && (forall h :: h in s.handlers ==> (HasPort(s.handlers[h].phase) <==> s.listener == Some(h)))
    && (s.listener.Some? ==> s.listener.value in s.handlers)
  }

  predicate HandlersOk(s: State) {
    forall h :: h in s.handlers ==> HandlerOk(s.handlers[h])
  }

  /** Bytes go only to the address that asked, and only from that request's own snapshot. */
  predicate TransferOk(s: State, t: Transfer) {
    && t.handler in s.handlers
    && s.handlers[t.handler].ip == t.to
    && s.handlers[t.handler].pinned == Some(t.snap)
    && s.handlers[t.handler].replies == [Accepted]
    && var p := s.handlers[t.handler].phase; p.Streaming? || p.Releasing? || p.Done?
  }

  predicate TransfersOk(s: State) {
    forall t :: t in s.transfers ==> TransferOk(s, t)
  }

  predicate Inv(s: State) {
    LockOk(s) && PortOk(s) && HandlersOk(s) && TransfersOk(s)
  }

  lemma LockKept(s: State, a: Action)
    requires LockOk(s) && Enabled(s, a)
    ensures LockOk(Apply(s, a))
  {}

  lemma PortKept(s: State, a: Action)
    requires LockOk(s) && PortOk(s) && Enabled(s, a)
    ensures PortOk(Apply(s, a))
  {
    hide Apply;
    hide Enabled;
    hide LockOk;
    hide PortOk;
    match a {
      case Bind(h) => BindTakesPort(s, h);
      case CloseListener(h) => ClosingFreesPort(s, h);
      case _ => PortUnmoved(s, a);
    }
  }

  lemma ClosingFreesPort(s: State, h: nat)
    requires PortOk(s) && Enabled(s, CloseListener(h))
    ensures PortOk(Apply(s, CloseListener(h)))
  {}

  lemma PortUnmoved(s: State, a: Action)
    requires PortOk(s) && Enabled(s, a) && !a.Bind? && !a.CloseListener?
    ensures PortOk(Apply(s, a))
  {}

  /** The binder holds the lock, so nobody else can have the port. */
  lemma BindTakesPort(s: State, h: nat)
    requires LockOk(s) && PortOk(s) && Enabled(s, Bind(h))
    ensures PortOk(Apply(s, Bind(h)))
  {
    assert s.lock == Some(h);
    assert s.listener.Some? ==> HasPort(s.handlers[s.listener.value].phase);
  }

  lemma HandlersKept(s: State, a: Action)
    requires HandlersOk(s) && Enabled(s, a)
    ensures HandlersOk(Apply(s, a))
  {}

  lemma TransferStays(s: State, a: Action, t: Transfer)
    requires TransferOk(s, t) && Enabled(s, a)
    ensures TransferOk(Apply(s, a), t)
  {}

  lemma NewTransferOk(s: State, h: nat)
    requires HandlersOk(s) && Enabled(s, StartStream(h))
    ensures TransferOk(Apply(s, StartStream(h)), Transfer(h, s.handlers[h].pinned.value, s.handlers[h].phase.to))
  {
    assert HandlerOk(s.handlers[h]);
  }

  lemma TransfersAfter(s: State, a: Action)
    requires Enabled(s, a)
    ensures Apply(s, a).transfers == s.transfers + if a.StartStream?
      then [Transfer(a.h, s.handlers[a.h].pinned.value, s.handlers[a.h].phase.to)] else []
  {}

  lemma TransfersKept(s: State, a: Action)
    requires HandlersOk(s) && TransfersOk(s) && Enabled(s, a)
    ensures TransfersOk(Apply(s, a))
  {
    hide Apply;
    hide Enabled;
    hide HandlersOk;
    hide TransferOk;
    TransfersAfter(s, a);
    forall t | t in Apply(s, a).transfers ensures TransferOk(Apply(s, a), t) {
      if t in s.transfers {
        TransferStays(s, a, t);
      } else {
        NewTransferOk(s, a.h);
      }
    }
  }

  lemma InvKept(s: State, a: Action)
    requires Inv(s) && Enabled(s, a)
    ensures Inv(Apply(s, a))
  {
    LockKept(s, a);
    PortKept(s, a);
    HandlersKept(s, a);
    TransfersKept(s, a);
  }

  // ---------------------------------------------------------------- whole runs

  predicate Behaviour(trace: seq<State>, actions: seq<Action>) {
    && |trace| == |actions| + 1
    && Initial(trace[0])
    && forall i :: 0 <= i < |actions| ==> Enabled(trace[i], actions[i]) && trace[i + 1] == Apply(trace[i], actions[i])
  }

  lemma {:induction false} AlwaysInv(trace: seq<State>, actions: seq<Action>, n: nat)
    requires Behaviour(trace, actions) && n < |trace|
    ensures Inv(trace[n])
  {
    hide Apply;
    hide Enabled;
    if n > 0 {
      AlwaysInv(trace, actions, n - 1);
      InvKept(trace[n - 1], actions[n - 1]);
    }
  }

  /** At every moment of every run: at most one handler holds the sender role, only it has
      the port open, and the port is closed whenever the lock is free. */
  lemma ExclusiveSend(trace: seq<State>, actions: seq<Action>, n: nat, h: nat, k: nat)
    requires Behaviour(trace, actions) && n < |trace|
    requires h in trace[n].handlers && k in trace[n].handlers
    ensures HoldsLock(trace[n].handlers[h].phase) && HoldsLock(trace[n].handlers[k].phase) ==> h == k
    ensures trace[n].listener == Some(h) ==> trace[n].lock == Some(h) && HoldsLock(trace[n].handlers[h].phase)
    ensures trace[n].lock == None ==> trace[n].listener == None
  {
    hide Behaviour;
    AlwaysInv(trace, actions, n);
  }

  /** No handler ever asks for the port while another one has it. */
  lemma PortFreeAtBind(trace: seq<State>, actions: seq<Action>, n: nat)
    requires Behaviour(trace, actions) && n < |actions| && actions[n].Bind?
    ensures trace[n].listener == None
  {
    AlwaysInv(trace, actions, n);
    assert Enabled(trace[n], actions[n]);
  }

  /** A finished request got exactly one reply; it was told "ok" only with the port bound and
      a snapshot pinned, and one that is streamed to was told "ok". */
  lemma OneReply(trace: seq<State>, actions: seq<Action>, n: nat, h: nat)
    requires Behaviour(trace, actions) && n < |trace| && h in trace[n].handlers
    ensures var x := trace[n].handlers[h];
      && |x.replies| <= 1
      && (x.phase.Done? ==> |x.replies| == 1)
      && (Accepted in x.replies ==> x.ownPort && x.pinned.Some?)
      && (x.phase.Streaming? ==> x.replies == [Accepted])
  {
    hide Behaviour;
    AlwaysInv(trace, actions, n);
    assert HandlerOk(trace[n].handlers[h]);
  }

  /** A handler's snapshot is the one the database served at the moment of its `Pin`, and no
      later swap replaces it. */
  lemma {:induction false} PinnedWhenTaken(trace: seq<State>, actions: seq<Action>, n: nat, h: nat)
    requires Behaviour(trace, actions) && n < |trace| && h in trace[n].handlers
    requires trace[n].handlers[h].pinned.Some?
    ensures exists k :: 0 <= k < n && actions[k] == Pin(h) && trace[k].current == trace[n].handlers[h].pinned.value
  {
    if n > 0 {
      var s, a := trace[n - 1], actions[n - 1];
      assert Enabled(s, a) && trace[n] == Apply(s, a);
      if a == Pin(h) {
        assert s.current == trace[n].handlers[h].pinned.value;
      } else {
        HandlerPinKept(s, a, h);
        PinnedWhenTaken(trace, actions, n - 1, h);
      }
    }
  }

  lemma HandlerPinKept(s: State, a: Action, h: nat)
    requires Enabled(s, a) && a != Pin(h) && h in Apply(s, a).handlers
    requires Apply(s, a).handlers[h].pinned.Some?
    ensures h in s.handlers && s.handlers[h].pinned == Apply(s, a).handlers[h].pinned
  {}

  /** Every stream goes to the requester, carries the snapshot pinned for that request, and
      that snapshot was current when it was pinned. */
  lemma StreamsArePinned(trace: seq<State>, actions: seq<Action>, n: nat, t: Transfer)
    requires Behaviour(trace, actions) && n < |trace| && t in trace[n].transfers
    ensures t.handler in trace[n].handlers && trace[n].handlers[t.handler].ip == t.to
    ensures exists k :: 0 <= k < n && actions[k] == Pin(t.handler) && trace[k].current == t.snap
  {
    AlwaysInv(trace, actions, n);
    PinnedWhenTaken(trace, actions, n, t.handler);
  }

  /** Once taken, a pin stays. */
  lemma {:induction false} PinStays(trace: seq<State>, actions: seq<Action>, k: nat, n: nat, h: nat)
    requires Behaviour(trace, actions) && k < n < |trace| && actions[k] == Pin(h)
    ensures h in trace[n].handlers && trace[n].handlers[h].pinned == Some(trace[k].current)
  {
    hide Enabled;
    hide Inv;
    hide Apply;
    if n == k + 1 {
      Pins(trace[k], h);
    } else {
      PinStays(trace, actions, k, n - 1, h);
      AlwaysInv(trace, actions, n - 1);
      NotPinnedAgain(trace[n - 1], actions[n - 1], h);
    }
  }

  lemma Pins(s: State, h: nat)
    requires Enabled(s, Pin(h))
    ensures h in Apply(s, Pin(h)).handlers && Apply(s, Pin(h)).handlers[h].pinned == Some(s.current)
  {}

  lemma NotPinnedAgain(s: State, a: Action, h: nat)
    requires Inv(s) && Enabled(s, a) && h in s.handlers && s.handlers[h].pinned.Some?
    ensures h in Apply(s, a).handlers && Apply(s, a).handlers[h].pinned == s.handlers[h].pinned
  {
    assert HandlerOk(s.handlers[h]);
  }

  /** What the last swap of a stretch of a run put in place. */
  function LastSwap(actions: seq<Action>, m: nat, k: nat): Option<Snapshot>
    requires k <= |actions|
  {
    if k <= m then None
    else if actions[k - 1].SwapDatabase? then Some(actions[k - 1].snap)
    else LastSwap(actions, m, k - 1)
  }

  lemma {:induction false} CurrentIsLastSwap(trace: seq<State>, actions: seq<Action>, m: nat, k: nat)
    requires Behaviour(trace, actions) && m <= k < |trace|
    ensures trace[k].current == match LastSwap(actions, m, k) case Some(snap) => snap case None => trace[m].current
    decreases k - m
  {
    if m < k {
      CurrentIsLastSwap(trace, actions, m, k - 1);
      assert Enabled(trace[k - 1], actions[k - 1]) && trace[k] == Apply(trace[k - 1], actions[k - 1]);
    }
  }

  /** The promise that a pull is sent what `db_info` described.  A peer is answered at `m` and
      its pull is pinned at `k`: the pull's snapshot is ever after the one described if and
      only if no swap came in between, or the last one put that same snapshot back. */
  lemma PinMatchesDbInfoIff(trace: seq<State>, actions: seq<Action>, m: nat, k: nat, n: nat, h: nat)
    requires Behaviour(trace, actions) && m < k < n < |trace|
    requires actions[m].DbInfo? && actions[k] == Pin(h)
    ensures h in trace[n].handlers
    ensures trace[n].handlers[h].pinned == Some(trace[m].current) <==>
      LastSwap(actions, m, k) == None || LastSwap(actions, m, k) == Some(trace[m].current)
  {
    PinStays(trace, actions, k, n, h);
    CurrentIsLastSwap(trace, actions, m, k);
  }

  /** And so for every byte sent: a stream of that request carries the snapshot described
      exactly under the same condition. */
  lemma StreamMatchesDbInfoIff(trace: seq<State>, actions: seq<Action>, m: nat, k: nat, n: nat, t: Transfer)
    requires Behaviour(trace, actions) && m < k < n < |trace| && t in trace[n].transfers
    requires actions[m].DbInfo? && actions[k] == Pin(t.handler)
    ensures t.snap == trace[m].current <==>
      LastSwap(actions, m, k) == None || LastSwap(actions, m, k) == Some(trace[m].current)
  {
    hide LastSwap;
    AlwaysInv(trace, actions, n);
    PinMatchesDbInfoIff(trace, actions, m, k, n, t.handler);
  }

  /** One swap in between is enough to break it: a run in which the peer at address 0 is told
      about one snapshot and its pull is pinned to another. */
  lemma DbInfoMayBeStale(s: State, made: Snapshot) returns (trace: seq<State>, actions: seq<Action>)
    requires Initial(s) && made != s.current
    ensures Behaviour(trace, actions) && trace[0] == s && |actions| == 5
    ensures actions[0] == DbInfo(0) && actions[4] == Pin(0)
    ensures 0 in trace[5].handlers && trace[5].handlers[0].ip == 0
    ensures trace[5].handlers[0].pinned == Some(made) != Some(trace[0].current)
  {
    var s1 := Apply(s, SwapDatabase(made));
    var s2 := Apply(s1, Arrive(0, 0));
    var s3 := Apply(s2, TryLock(0));
    var s4 := Apply(s3, Pin(0));
    trace := [s, s, s1, s2, s3, s4];
    actions := [DbInfo(0), SwapDatabase(made), Arrive(0, 0), TryLock(0), Pin(0)];
  }

  // ---------------------------------------------------------------- told ok, sent nothing

  /** After saying "ok" a handler may still give up: nobody connects, or the accepted
      connection cannot be set up. */
  predicate Quits(a: Action, h: nat) {
    a == GiveUp(h) || a == BlockingFails(h)
  }

  predicate Streamed(s: State, h: nat) {
    exists t :: t in s.transfers && t.handler == h
  }

  /** Said "ok" and is on its way out without having sent anything. */
  predicate Silent(s: State, h: nat) {
    && h in s.handlers && s.handlers[h].replies == [Accepted] && !Streamed(s, h)
    && (s.handlers[h].phase == Closing(None) || s.handlers[h].phase.Releasing? || s.handlers[h].phase.Done?)
  }

  lemma QuitIsSilent(s: State, a: Action, h: nat)
    requires Inv(s) && Enabled(s, a) && Quits(a, h)
    ensures Silent(Apply(s, a), h)
  {
    assert HandlerOk(s.handlers[h]);
  }

  lemma SilentKept(s: State, a: Action, h: nat)
    requires Silent(s, h) && Enabled(s, a)
    ensures Silent(Apply(s, a), h)
  {
    forall t | t in Apply(s, a).transfers ensures t.handler != h {
      if t in s.transfers {
        assert !Streamed(s, h);
      }
    }
  }

  /** Giving up is never reported: from then on the request has its one "ok" and no bytes. */
  lemma {:induction false} GivingUpIsSilent(trace: seq<State>, actions: seq<Action>, k: nat, n: nat, h: nat)
    requires Behaviour(trace, actions) && k < n < |trace| && Quits(actions[k], h)
    ensures Silent(trace[n], h)
  {
    hide Enabled;
    hide Apply;
    hide Inv;
    hide Silent;
    if n == k + 1 {
      AlwaysInv(trace, actions, k);
      QuitIsSilent(trace[k], actions[k], h);
    } else {
      GivingUpIsSilent(trace, actions, k, n - 1, h);
      SilentKept(trace[n - 1], actions[n - 1], h);
    }
  }

  lemma OneMoreStep(trace: seq<State>, actions: seq<Action>, a: Action)
    requires Behaviour(trace, actions) && Enabled(trace[|actions|], a)
    ensures Behaviour(trace + [Apply(trace[|actions|], a)], actions + [a])
  {
    hide Enabled;
    hide Apply;
  }

  /** The only handler of a run, in the given phase, with all that is its own. */
  predicate Alone(s: State, phase: Phase, replies: seq<Reply>) {
    && 0 in s.handlers && s.handlers[0].phase == phase && s.handlers[0].replies == replies
    && s.transfers == []
  }

  lemma PinnedAlone(s: State) returns (trace: seq<State>, actions: seq<Action>)
    requires Initial(s)
    ensures Behaviour(trace, actions) && trace[0] == s && Alone(trace[|actions|], SnapshotPinned, [])
  {
    var s1 := Apply(s, Arrive(0, 0));
    var s2 := Apply(s1, TryLock(0));
    var s3 := Apply(s2, Pin(0));
    trace := [s, s1, s2, s3];
    actions := [Arrive(0, 0), TryLock(0), Pin(0)];
  }

  /** The rest of an unlucky request, step by step. */
  const UNLUCKY: seq<(Action, Phase)> :=
    [(Bind(0), Bound), (ReplyOk(0), Accepting), (GiveUp(0), Closing(None)), (CloseListener(0), Releasing),
     (Unlock(0), Done)]

  lemma UnluckyStep(s: State, i: nat)
    requires i < 5
    requires Alone(s, if i == 0 then SnapshotPinned else UNLUCKY[i - 1].1, if i < 2 then [] else [Accepted])
    ensures Enabled(s, UNLUCKY[i].0)
    ensures Alone(Apply(s, UNLUCKY[i].0), UNLUCKY[i].1, if i < 1 then [] else [Accepted])
    ensures i == 4 ==> Apply(s, UNLUCKY[i].0).lock == None
  {}

  /** Such a run: one request, told "ok", whose requester never connects. */
  lemma TimeoutUnreported(s: State) returns (trace: seq<State>, actions: seq<Action>)
    requires Initial(s)
    ensures Behaviour(trace, actions) && trace[0] == s
    ensures Alone(trace[|actions|], Done, [Accepted]) && trace[|actions|].lock == None
  {
    hide Behaviour;
    hide Alone;
    hide Enabled;
    hide Apply;
    trace, actions := PinnedAlone(s);
    for i := 0 to 5
      invariant |trace| == |actions| + 1
      invariant Behaviour(trace, actions) && trace[0] == s
      invariant Alone(trace[|actions|], if i == 0 then SnapshotPinned else UNLUCKY[i - 1].1,
                      if i < 2 then [] else [Accepted])
      invariant i == 5 ==> trace[|actions|].lock == None
    {
      UnluckyStep(trace[|actions|], i);
      OneMoreStep(trace, actions, UNLUCKY[i].0);
      trace, actions := trace + [Apply(trace[|actions|], UNLUCKY[i].0)], actions + [UNLUCKY[i].0];
    }
  }

  /** The rest of a lucky request. */
  const LUCKY: seq<(Action, Phase)> :=
    [(Bind(0), Bound), (ReplyOk(0), Accepting), (AcceptRequester(0, 0), Closing(Some(0))),
     (CloseListener(0), Closed(0)), (StartStream(0), Streaming(0)), (EndStream(0), Releasing), (Unlock(0), Done)]

  predicate Luckily(s: State, snap: Snapshot, phase: Phase, i: nat) {
    && 0 in s.handlers && s.handlers[0] == Handler(0, phase, if i < 2 then [] else [Accepted], Some(snap), i > 0)
    && s.transfers == (if i < 5 then [] else [Transfer(0, snap, 0)])
  }

  lemma LuckyStep(s: State, snap: Snapshot, i: nat)
    requires i < 7 && Luckily(s, snap, if i == 0 then SnapshotPinned else LUCKY[i - 1].1, i)
    ensures Enabled(s, LUCKY[i].0)
    ensures Luckily(Apply(s, LUCKY[i].0), snap, LUCKY[i].1, i + 1)
    ensures i == 6 ==> Apply(s, LUCKY[i].0).lock == None
  {}

  lemma PinnedLuckily(s: State) returns (trace: seq<State>, actions: seq<Action>)
    requires Initial(s)
    ensures Behaviour(trace, actions) && trace[0] == s && Luckily(trace[|actions|], s.current, SnapshotPinned, 0)
  {
    var s1 := Apply(s, Arrive(0, 0));
    var s2 := Apply(s1, TryLock(0));
    var s3 := Apply(s2, Pin(0));
    trace := [s, s1, s2, s3];
    actions := [Arrive(0, 0), TryLock(0), Pin(0)];
  }

  /** A run in which a request is told "ok" and is sent the database, and everything is let go. */
  lemma PullServed(s: State) returns (trace: seq<State>, actions: seq<Action>)
    requires Initial(s)
    ensures Behaviour(trace, actions) && trace[0] == s
    ensures Luckily(trace[|actions|], s.current, Done, 7) && trace[|actions|].lock == None
  {
    hide Behaviour;
    hide Luckily;
    hide Enabled;
    hide Apply;
    trace, actions := PinnedLuckily(s);
    for i := 0 to 7
      invariant |trace| == |actions| + 1
      invariant Behaviour(trace, actions) && trace[0] == s
      invariant Luckily(trace[|actions|], s.current, if i == 0 then SnapshotPinned else LUCKY[i - 1].1, i)
      invariant i == 7 ==> trace[|actions|].lock == None
    {
      LuckyStep(trace[|actions|], s.current, i);
      OneMoreStep(trace, actions, LUCKY[i].0);
      trace, actions := trace + [Apply(trace[|actions|], LUCKY[i].0)], actions + [LUCKY[i].0];
    }
  }

  /** Past the accept loop with an "ok" said. */
  predicate Committed(s: State, h: nat) {
    && h in s.handlers && Accepted in s.handlers[h].replies
    && var p := s.handlers[h].phase; p == Closing(None) || p.Streaming? || p.Releasing? || p.Done?
  }

  lemma CommitsBy(s: State, a: Action, h: nat)
    requires HandlersOk(s) && Enabled(s, a) && Committed(Apply(s, a), h)
    ensures Committed(s, h) || Quits(a, h) || a == StartStream(h)
    ensures Committed(s, h) && Streamed(s, h) ==> Streamed(Apply(s, a), h)
    ensures a == StartStream(h) ==> Streamed(Apply(s, a), h)
  {
    if a == StartStream(h) {
      var t := Transfer(h, s.handlers[h].pinned.value, s.handlers[h].phase.to);
      assert t in Apply(s, a).transfers;
    } else {
      assert h in s.handlers && HandlerOk(s.handlers[h]);
      if Streamed(s, h) {
        var t :| t in s.transfers && t.handler == h;
        assert t in Apply(s, a).transfers;
      }
    }
  }

  lemma {:induction false} CommittedStreamsOrQuits(trace: seq<State>, actions: seq<Action>, n: nat, h: nat)
    requires Behaviour(trace, actions) && n < |trace| && Committed(trace[n], h)
    ensures Streamed(trace[n], h) || exists k :: 0 <= k < n && Quits(actions[k], h)
  {
    hide Enabled;
    hide Apply;
    hide Committed;
    hide Streamed;
    hide Quits;
    if n == 0 {
      assert false by { NobodyCommittedAtStart(trace[0], h); }
    } else {
      AlwaysInv(trace, actions, n - 1);
      CommitsBy(trace[n - 1], actions[n - 1], h);
      if Committed(trace[n - 1], h) {
        CommittedStreamsOrQuits(trace, actions, n - 1, h);
      }
    }
  }

  lemma NobodyCommittedAtStart(s: State, h: nat)
    requires Initial(s)
    ensures !Committed(s, h)
  {}

  /** A finished request that was told "ok" was sent the database exactly when its handler
      did not give up on the way. */
  lemma OkMeansStreamedIff(trace: seq<State>, actions: seq<Action>, n: nat, h: nat)
    requires Behaviour(trace, actions) && n < |trace| && h in trace[n].handlers
    requires trace[n].handlers[h].phase.Done? && Accepted in trace[n].handlers[h].replies
    ensures Streamed(trace[n], h) <==> forall k :: 0 <= k < n ==> !Quits(actions[k], h)
  {
    hide Quits;
    hide Streamed;
    if k :| 0 <= k < n && Quits(actions[k], h) {
      GivingUpIsSilent(trace, actions, k, n, h);
    } else {
      CommittedStreamsOrQuits(trace, actions, n, h);
    }
  }

  // ---------------------------------------------------------------- what a reply means

  /** What makes a handler say what it says. */
  predicate Says(s: State, a: Action, h: nat, reply: Reply) {
    match reply
    case Busy => a == TryLock(h) && s.lock.Some?
    case BindFailed => a == BindFails(h) || a == NonblockingFails(h)
    case Accepted => a == ReplyOk(h)
  }

  lemma RepliesAfter(s: State, a: Action, h: nat, reply: Reply)
    requires Enabled(s, a) && h in Apply(s, a).handlers
    ensures reply in Apply(s, a).handlers[h].replies <==>
      (h in s.handlers && reply in s.handlers[h].replies) || Says(s, a, h, reply)
  {}

  /** Every reply has its one reason: "busy" that another handler had the lock when this one
      tried it, "bind_failed" that the port could not be bound or set up, "ok" that the handler
      got past both. */
  lemma {:induction false} ReplyMeansIff(trace: seq<State>, actions: seq<Action>, n: nat, h: nat, reply: Reply)
    requires Behaviour(trace, actions) && n < |trace| && h in trace[n].handlers
    ensures reply in trace[n].handlers[h].replies <==>
      exists k :: 0 <= k < n && Says(trace[k], actions[k], h, reply)
  {
    hide Enabled;
    hide Apply;
    hide Says;
    if n > 0 {
      RepliesAfter(trace[n - 1], actions[n - 1], h, reply);
      if h in trace[n - 1].handlers {
        ReplyMeansIff(trace, actions, n - 1, h, reply);
      } else {
        NeverSaid(trace, actions, n - 1, h, reply);
      }
    }
  }

  lemma {:induction false} NeverSaid(trace: seq<State>, actions: seq<Action>, n: nat, h: nat, reply: Reply)
    requires Behaviour(trace, actions) && n < |trace| && h !in trace[n].handlers
    ensures forall k :: 0 <= k < n ==> !Says(trace[k], actions[k], h, reply)
  {
    if n > 0 {
      StaysAbsent(trace[n - 1], actions[n - 1], h, reply);
      hide Says;
      hide Enabled;
      hide Apply;
      NeverSaid(trace, actions, n - 1, h, reply);
    }
  }

  lemma StaysAbsent(s: State, a: Action, h: nat, reply: Reply)
    requires Enabled(s, a) && h !in Apply(s, a).handlers
    ensures h !in s.handlers && !Says(s, a, h, reply)
  {}

  // ---------------------------------------------------------------- the lock is always released

  /** Steps a handler still has to take before it lets go of the lock. */
  function StepsLeft(p: Phase): nat {
    match p
    case Arrived => 0
    case Locked => 8
    case SnapshotPinned => 7
    case Bound => 6
    case Accepting => 5
    case Closing(_) => 4
    case Closed(_) => 3
    case Streaming(_) => 2
    case Releasing => 1
    case Done => 0
  }

  /** A step the lock holder can take without waiting for anyone. */
  function WayOut(p: Phase, h: nat): Action {
    match p
    case Locked => Pin(h)
    case SnapshotPinned => BindFails(h)
    case Bound => NonblockingFails(h)
    case Accepting => GiveUp(h)
    case Closing(_) => CloseListener(h)
    case Closed(_) => BlockingFails(h)
    case Streaming(_) => EndStream(h)
    case _ => Unlock(h)
  }

  lemma WayOutWorks(s: State, h: nat)
    requires Inv(s) && s.lock == Some(h)
    ensures h in s.handlers
    ensures var p, a := s.handlers[h].phase, WayOut(s.handlers[h].phase, h);
      && HoldsLock(p) && Enabled(s, a)
      && (if p.Releasing? then Apply(s, a).lock == None
          else Apply(s, a).lock == Some(h) && h in Apply(s, a).handlers
               && StepsLeft(Apply(s, a).handlers[h].phase) < StepsLeft(p))
  {
    assert HandlerOk(s.handlers[h]);
  }

  lemma FreeLockClosedPort(s: State)
    requires Inv(s) && s.lock == None
    ensures s.listener == None
  {}

  /** The handler that takes a step, if one does. */
  function Actor(a: Action): Option<nat> {
    match a
    case DbInfo(_) => None
    case SwapDatabase(_) => None
    case _ => Some(a.h)
  }

  /** A step of the handler that is not the refusal of a stranger's connection. */
  predicate MovesOn(a: Action, h: nat) {
    Actor(a) == Some(h) && !a.AcceptOther?
  }

  /** Every step the lock holder can take, on whatever path: it lets go, it gets closer to
      letting go, or it refuses a stranger and is where it was. */
  lemma HolderStep(s: State, a: Action, h: nat)
    requires Inv(s) && s.lock == Some(h) && Enabled(s, a) && Actor(a) == Some(h)
    ensures h in s.handlers
    ensures match a
      case AcceptOther(_, _) => Apply(s, a) == s
      case Unlock(_) => Apply(s, a).lock == None && Apply(s, a).listener == None
      case _ =>
        && Apply(s, a).lock == Some(h) && h in Apply(s, a).handlers
        && StepsLeft(Apply(s, a).handlers[h].phase) < StepsLeft(s.handlers[h].phase)
  {}

  /** Nobody else's step moves the holder or takes its lock. */
  lemma OthersStep(s: State, a: Action, h: nat)
    requires Inv(s) && s.lock == Some(h) && Enabled(s, a) && Actor(a) != Some(h)
    ensures h in s.handlers && h in Apply(s, a).handlers
    ensures Apply(s, a).lock == Some(h) && Apply(s, a).handlers[h] == s.handlers[h]
  {}

  function CountMoves(actions: seq<Action>, m: nat, n: nat, h: nat): nat
    requires n <= |actions|
  {
    if n <= m then 0 else CountMoves(actions, m, n - 1, h) + if MovesOn(actions[n - 1], h) then 1 else 0
  }

  /** While the lock is held, the steps the holder took and those it has left never exceed
      what it had left at the start. */
  lemma {:induction false} HolderRunsDown(trace: seq<State>, actions: seq<Action>, m: nat, n: nat, h: nat)
    requires Behaviour(trace, actions) && m <= n < |trace|
    requires forall i :: m <= i <= n ==> trace[i].lock == Some(h)
    ensures h in trace[m].handlers && h in trace[n].handlers
    ensures CountMoves(actions, m, n, h) + StepsLeft(trace[n].handlers[h].phase)
      <= StepsLeft(trace[m].handlers[h].phase)
    decreases n - m
  {
    hide Inv;
    hide Enabled;
    hide Apply;
    hide StepsLeft;
    hide Initial;
    if n == m {
      AlwaysInv(trace, actions, n);
      HolderKnown(trace[n], h);
    } else {
      var s, a := trace[n - 1], actions[n - 1];
      HolderRunsDown(trace, actions, m, n - 1, h);
      AlwaysInv(trace, actions, n - 1);
      if Actor(a) == Some(h) {
        HolderStep(s, a, h);
      } else {
        OthersStep(s, a, h);
      }
    }
  }

  lemma HolderKnown(s: State, h: nat)
    requires Inv(s) && s.lock == Some(h)
    ensures h in s.handlers && StepsLeft(s.handlers[h].phase) >= 1
  {}

  /** Every way out releases: in any run, on any path, once the holder has taken as many
      steps as it had left (refused strangers aside), the lock has been let go, with the port
      closed. */
  lemma {:induction false} EveryPathReleases(trace: seq<State>, actions: seq<Action>, m: nat, n: nat, h: nat)
    requires Behaviour(trace, actions) && m <= n < |trace|
    requires trace[m].lock == Some(h) && h in trace[m].handlers
    requires CountMoves(actions, m, n, h) >= StepsLeft(trace[m].handlers[h].phase)
    ensures exists r :: m < r <= n && trace[r].lock == None && trace[r].listener == None
    decreases n - m
  {
    hide Inv;
    hide Enabled;
    hide Apply;
    hide StepsLeft;
    hide Initial;
    AlwaysInv(trace, actions, m);
    HolderKnown(trace[m], h);
    if forall i :: m <= i <= n ==> trace[i].lock == Some(h) {
      HolderRunsDown(trace, actions, m, n, h);
      AlwaysInv(trace, actions, n);
      HolderKnown(trace[n], h);
      assert false;
    } else {
      var i :| m <= i <= n && trace[i].lock != Some(h);
      FirstRelease(trace, actions, m, i, h);
    }
  }

  /** The lock leaves its holder only by being let go. */
  lemma {:induction false} FirstRelease(trace: seq<State>, actions: seq<Action>, m: nat, i: nat, h: nat)
    requires Behaviour(trace, actions) && m <= i < |trace|
    requires trace[m].lock == Some(h) && trace[i].lock != Some(h)
    ensures exists r :: m < r <= i && trace[r].lock == None && trace[r].listener == None
    decreases i - m
  {
    hide Inv;
    hide Enabled;
    hide Apply;
    hide StepsLeft;
    hide Initial;
    if trace[i - 1].lock == Some(h) {
      AlwaysInv(trace, actions, i - 1);
      if Actor(actions[i - 1]) == Some(h) {
        HolderStep(trace[i - 1], actions[i - 1], h);
      } else {
        OthersStep(trace[i - 1], actions[i - 1], h);
      }
    } else {
      FirstRelease(trace, actions, m, i - 1, h);
    }
  }

  /** And the holder is never stuck: from whatever state, it can get to the release by its own
      steps alone. */
  lemma {:induction false} LockCanBeReleased(s: State, h: nat) returns (actions: seq<Action>, trace: seq<State>)
    requires Inv(s) && s.lock == Some(h) && h in s.handlers
    ensures |trace| == |actions| + 1 && trace[0] == s
    ensures forall i :: 0 <= i < |actions| ==>
      Enabled(trace[i], actions[i]) && trace[i + 1] == Apply(trace[i], actions[i])
    ensures trace[|actions|].lock == None && trace[|actions|].listener == None
    ensures |actions| <= StepsLeft(s.handlers[h].phase)
    decreases StepsLeft(s.handlers[h].phase)
  {
    hide Inv;
    hide Enabled;
    hide Apply;
    hide StepsLeft;
    hide WayOut;
    var a := WayOut(s.handlers[h].phase, h);
    WayOutWorks(s, h);
    var s' := Apply(s, a);
    InvKept(s, a);
    if s.handlers[h].phase.Releasing? {
      FreeLockClosedPort(s');
      actions, trace := [a], [s, s'];
      assert StepsLeft(Releasing) == 1 by { OneStepLeft(); }
    } else {
      var more, rest := LockCanBeReleased(s', h);
      actions, trace := [a] + more, [s] + rest;
    }
  }

  lemma OneStepLeft()
    ensures StepsLeft(Releasing) == 1
  {}
}
