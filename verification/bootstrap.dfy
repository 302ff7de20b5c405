/** Choosing a peer to pull from at boot (`try_bootstrap_from_peers` in `src/mesh_sync.rs`). */
module Bootstrap {
  import opened ByteStrings
  import opened Outcomes
  import opened Records
  import opened Sorting
  import opened Log

  /** A peer's `db_info`, its numbers as sent. */
  datatype Answer = Answer(ip: Bytes, builtAt: nat, formatVersion: nat)

  datatype Candidate = Candidate(ip: Bytes, builtAt: nat)

  /** Rust's `saturating_sub`. */
  function SaturatingSub(a: nat, b: nat): nat {
    if a < b then 0 else a - b
  }

  predicate Eligible(a: Answer, now: nat, ttl: nat) {
    AsU32(a.formatVersion) == DB_FORMAT_VERSION && SaturatingSub(now, a.builtAt) < ttl
  }

  /** "An exact version match" is one modulo 2^32: a peer may advertise any version that leaves
      this one when cut to 32 bits, 2^32 + 1 for one. */
  lemma VersionMatchIff(ip: Bytes, builtAt: nat, version: nat, now: nat, ttl: nat)
    requires SaturatingSub(now, builtAt) < ttl
    ensures Eligible(Answer(ip, builtAt, version), now, ttl) <==>
      exists k: nat :: version == DB_FORMAT_VERSION + Wrapped(k)
    ensures Eligible(Answer(ip, builtAt, DB_FORMAT_VERSION + Wrapped(1)), now, ttl)
  {
    if version % U32_MODULUS == DB_FORMAT_VERSION {
      assert version == DB_FORMAT_VERSION + Wrapped(version / U32_MODULUS);
    }
    forall k: nat ensures AsU32(DB_FORMAT_VERSION + Wrapped(k)) == DB_FORMAT_VERSION {
      WrappedAway(k);
    }
  }

  function Wrapped(k: nat): nat { k * U32_MODULUS }

  lemma {:induction false} WrappedAway(k: nat)
    ensures AsU32(DB_FORMAT_VERSION + Wrapped(k)) == DB_FORMAT_VERSION
  {
    if k > 0 {
      WrappedAway(k - 1);
    }
  }

  /** An answer is eligible exactly with this version, in 32 bits, and built less than the TTL
      ago; one built in the future is zero seconds old. */
  lemma EligibleIff(a: Answer, now: nat, ttl: nat)
    ensures Eligible(a, now, ttl) <==> a.formatVersion % U32_MODULUS == 1 && ttl > 0 && now < a.builtAt + ttl
  {}

  predicate Fresher(a: Candidate, b: Candidate) {
    a.builtAt > b.builtAt
  }

  function Candidates(answers: seq<Option<Answer>>, now: nat, ttl: nat): seq<Candidate> {
    if answers == [] then []
    else
      var front := Candidates(answers[..|answers| - 1], now, ttl);
      match answers[|answers| - 1]
      case Some(a) => if Eligible(a, now, ttl) then front + [Candidate(a.ip, a.builtAt)] else front
      case None => front
  }

  lemma {:induction false} CandidatesAreEligible(answers: seq<Option<Answer>>, now: nat, ttl: nat, k: Candidate)
    ensures k in Candidates(answers, now, ttl) <==>
      exists v: nat :: Some(Answer(k.ip, k.builtAt, v)) in answers && Eligible(Answer(k.ip, k.builtAt, v), now, ttl)
  {
    if answers != [] {
      var front, last := answers[..|answers| - 1], answers[|answers| - 1];
      CandidatesAreEligible(front, now, ttl, k);
      assert answers == front + [last];
      if last.Some? && last == Some(Answer(k.ip, k.builtAt, last.value.formatVersion)) {
        assert last in answers;
      }
    }
  }

  /** The candidates stand in the order of the answers. */
  lemma {:induction false} CandidatesInOrder(a: seq<Option<Answer>>, b: seq<Option<Answer>>, now: nat, ttl: nat)
    ensures Candidates(a + b, now, ttl) == Candidates(a, now, ttl) + Candidates(b, now, ttl)
  {
    if b == [] {
      assert a + b == a;
    } else {
      assert (a + b)[..|a + b| - 1] == a + b[..|b| - 1];
      CandidatesInOrder(a, b[..|b| - 1], now, ttl);
    }
  }

  /** What pulling from each address would yield, if it were tried. */
  type Pulls = Bytes -> Option<Snapshot>

  function PullOf(pulls: Pulls, ip: Bytes): Option<Snapshot> { pulls(ip) }

  lemma FresherIsStrictWeak()
    ensures StrictWeak(Fresher)
  {}

  /** The peer used: it can be pulled, no candidate that can be was built later, and of those
      built in the same second none before it in the list can be. */
  ghost predicate BestPull(candidates: seq<Candidate>, pulls: Pulls, k: Candidate) {
    && PullOf(pulls, k.ip).Some?
    && (forall o :: o in candidates && PullOf(pulls, o.ip).Some? ==> o.builtAt <= k.builtAt)
    && exists i :: 0 <= i < |candidates| && FirstAt(candidates, pulls, k, i)
  }

  ghost predicate FirstAt(candidates: seq<Candidate>, pulls: Pulls, k: Candidate, i: nat)
    requires i < |candidates|
  {
    && candidates[i] == k
    && forall j :: 0 <= j < i && candidates[j].builtAt == k.builtAt ==> PullOf(pulls, candidates[j].ip).None?
  }

  /** The first among the tied is the first in the list. */
  lemma {:induction false} TiedInList(candidates: seq<Candidate>, pulls: Pulls, k: Candidate)
    requires FirstThatPulls(TiedWith(Fresher, candidates, k), pulls, k)
    ensures exists i :: 0 <= i < |candidates| && FirstAt(candidates, pulls, k, i)
  {
    var n := |candidates| - 1;
    var front := candidates[..n];
    var early := TiedWith(Fresher, front, k);
    if FirstThatPulls(early, pulls, k) {
      TiedInList(front, pulls, k);
      var i :| 0 <= i < n && FirstAt(front, pulls, k, i);
      assert FirstAt(candidates, pulls, k, i);
    } else {
      TiedIn(Fresher, front, k);
      LastIsFirst(early, candidates[n], pulls, k);
      assert forall j :: 0 <= j < n ==> front[j] in front;
      assert FirstAt(candidates, pulls, k, n);
    }
  }

  lemma LastIsFirst(early: seq<Candidate>, last: Candidate, pulls: Pulls, k: Candidate)
    requires !FirstThatPulls(early, pulls, k) && FirstThatPulls(early + [last], pulls, k)
    ensures last == k && forall o :: o in early ==> PullOf(pulls, o.ip).None?
  {
    var tied := early + [last];
    assert forall j :: 0 <= j < |early| ==> early[j] == tied[j];
    var i :| 0 <= i < |tied| && tied[i] == k && forall j :: 0 <= j < i ==> PullOf(pulls, tied[j].ip).None?;
    forall o | o in early ensures PullOf(pulls, o.ip).None? {
      var j :| 0 <= j < |early| && early[j] == o;
      assert tied[j] == o;
    }
  }

  ghost predicate FirstThatPulls(tied: seq<Candidate>, pulls: Pulls, k: Candidate) {
    exists i :: 0 <= i < |tied| && tied[i] == k && forall j :: 0 <= j < i ==> PullOf(pulls, tied[j].ip).None?
  }

  ghost predicate NonePulls(ks: seq<Candidate>, pulls: Pulls) {
    forall k :: k in ks ==> PullOf(pulls, k.ip).None?
  }

  lemma FirstOfTied(before: seq<Candidate>, k: Candidate, after: seq<Candidate>, pulls: Pulls)
    requires NonePulls(before, pulls)
    ensures FirstThatPulls(TiedWith(Fresher, before + ([k] + after), k), pulls, k)
  {
    TiedAppend(Fresher, before, [k] + after, k);
    TiedAppend(Fresher, [k], after, k);
    assert TiedWith(Fresher, [k], k) == [k] by { assert [k][..0] == []; }
    TiedIn(Fresher, before, k);
    hide TiedWith;
    var early, late := TiedWith(Fresher, before, k), TiedWith(Fresher, after, k);
    FirstAfter(early, k, late, pulls);
  }

  lemma FirstAfter(early: seq<Candidate>, k: Candidate, late: seq<Candidate>, pulls: Pulls)
    requires NonePulls(early, pulls)
    ensures FirstThatPulls(early + ([k] + late), pulls, k)
  {
    var tied := early + ([k] + late);
    assert tied[|early|] == k;
    forall j | 0 <= j < |early| ensures PullOf(pulls, tied[j].ip).None? {
      assert tied[j] == early[j] && early[j] in early;
    }
  }

  /** In a sorted list, nothing that pulls is fresher than the first that does. */
  lemma FirstIsFreshest(sorted: seq<Candidate>, pulls: Pulls, n: nat, o: Candidate)
    requires n < |sorted| && Sorted(Fresher, sorted) && NonePulls(sorted[..n], pulls)
    requires o in sorted && PullOf(pulls, o.ip).Some?
    ensures o.builtAt <= sorted[n].builtAt
  {
    assert o !in sorted[..n];
    assert sorted == sorted[..n] + sorted[n..];
    var j :| 0 <= j < |sorted[n..]| && sorted[n..][j] == o;
    assert sorted[n + j] == o;
  }

  lemma FirstInSortedIsBest(candidates: seq<Candidate>, pulls: Pulls, n: nat)
    requires var sorted := StableSort(Fresher, candidates);
      && n < |sorted| && PullOf(pulls, sorted[n].ip).Some?
      && NonePulls(sorted[..n], pulls)
    ensures BestPull(candidates, pulls, StableSort(Fresher, candidates)[n])
  {
    hide StableSort;
    hide FirstThatPulls;
    hide TiedWith;
    hide Sorted;
    hide NonePulls;
    var sorted := StableSort(Fresher, candidates);
    var k := sorted[n];
    FresherIsStrictWeak();
    StableSortCorrect(Fresher, candidates);
    SameElements(sorted, candidates);
    forall o | o in candidates && PullOf(pulls, o.ip).Some? ensures o.builtAt <= k.builtAt {
      FirstIsFreshest(sorted, pulls, n, o);
    }
    SplitAt(sorted, n);
    FirstOfTied(sorted[..n], k, sorted[n + 1..], pulls);
    TiedInList(candidates, pulls, k);
  }

  lemma NoneInSorted(candidates: seq<Candidate>, pulls: Pulls)
    ensures NonePulls(StableSort(Fresher, candidates), pulls) <==> NonePulls(candidates, pulls)
  {
    hide StableSort;
    SameElements(StableSort(Fresher, candidates), candidates);
  }

  /** Tries the candidates, freshest first, until one can be pulled. */
  method PullFreshest(candidates: seq<Candidate>, pulls: Pulls) returns (r: Option<Snapshot>)
    ensures r.None? <==> NonePulls(candidates, pulls)
    ensures r.Some? ==> exists k :: BestPull(candidates, pulls, k) && r == PullOf(pulls, k.ip)
  {
    hide StableSort;
    hide BestPull;
    NoneInSorted(candidates, pulls);
    var sorted := StableSort(Fresher, candidates);
    for i := 0 to |sorted|
      invariant NonePulls(sorted[..i], pulls)
    {
      r := PullOf(pulls, sorted[i].ip);
      if r.Some? {
        FirstInSortedIsBest(candidates, pulls, i);
        assert sorted[i] in sorted;
        return;
      }
      assert sorted[..i + 1] == sorted[..i] + [sorted[i]];
    }
    assert sorted[..|sorted|] == sorted;
    r := None;
  }

  /** A snapshot is returned exactly when some eligible peer can be pulled, and then it comes
      from the best of them. */
  method TryBootstrapFromPeers(answers: seq<Option<Answer>>, now: nat, ttl: nat, pulls: Pulls)
    returns (r: Option<Snapshot>)
    ensures r.None? <==> NonePulls(Candidates(answers, now, ttl), pulls)
    ensures r.Some? ==> exists k :: BestPull(Candidates(answers, now, ttl), pulls, k) && r == PullOf(pulls, k.ip)
  {
    hide BestPull;
    var candidates: seq<Candidate> := [];
    for i := 0 to |answers|
      invariant candidates == Candidates(answers[..i], now, ttl)
    {
      assert answers[..i + 1][..i] == answers[..i];
      match answers[i] {
        case None =>
        case Some(a) =>
          if AsU32(a.formatVersion) == DB_FORMAT_VERSION && SaturatingSub(now, a.builtAt) < ttl {
            candidates := candidates + [Candidate(a.ip, a.builtAt)];
          }
      }
    }
    assert answers[..|answers|] == answers;
    r := PullFreshest(candidates, pulls);
  }
}
