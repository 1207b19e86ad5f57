/** Single-use challenges, kept until they are consumed or their deadline passes. */
module ChallengeStore {
  import opened Wrappers

  datatype Challenge = Challenge(
    challengeId: string,
    nonce: string,
    audience: string,
    purpose: string,
    issuedAt: int,
    expiresAt: int)

  datatype Entry = Entry(deadline: real, challenge: Challenge)

  function Pruned(entries: map<string, Entry>, now: real): map<string, Entry> {
    map id | id in entries && entries[id].deadline > now :: entries[id]
  }

  function Inserted(entries: map<string, Entry>, deadline: real, challenge: Challenge, now: real): map<string, Entry> {
    Pruned(entries, now)[challenge.challengeId := Entry(deadline, challenge)]
  }

  function Taken(entries: map<string, Entry>, id: string, now: real): (map<string, Entry>, Option<Challenge>) {
    var pruned := Pruned(entries, now);
    (pruned - {id}, if id in pruned then Some(pruned[id].challenge) else None)
  }

  /** Each operation reads the clock once under the lock, as `now`. */
  class InMemoryChallengeStore {
    const ttl: real
    var entries: map<string, Entry>

    constructor (ttl: real)
      ensures this.ttl == ttl && entries == map[]
    {
      this.ttl := ttl;
      entries := map[];
    }

    /** `before` is the clock as read before the lock was taken. */
    method Issue(challenge: Challenge, before: real, now: real)
      modifies this
      ensures entries == Inserted(old(entries), before + ttl, challenge, now)
    {
      var deadline := before + ttl;
      Prune(now);
      entries := entries[challenge.challengeId := Entry(deadline, challenge)];
    }

    method Consume(challengeId: string, now: real) returns (challenge: Option<Challenge>)
      modifies this
      ensures (entries, challenge) == Taken(old(entries), challengeId, now)
    {
      Prune(now);
      challenge := None;
      if challengeId in entries {
        challenge := Some(entries[challengeId].challenge);
        entries := entries - {challengeId};
      }
      assert entries == Pruned(old(entries), now) - {challengeId};
    }

    method Prune(now: real)
      modifies this
      ensures entries == Pruned(old(entries), now)
    {
      var expired := set key | key in entries && entries[key].deadline <= now;
      while expired != {}
        invariant expired <= entries.Keys
        invariant entries.Keys <= old(entries).Keys
        invariant forall key | key in entries :: entries[key] == old(entries)[key]
        invariant forall key | key in old(entries) :: old(entries)[key].deadline > now ==> key in entries
        invariant forall key | key in entries :: entries[key].deadline <= now <==> key in expired
      {
        var key :| key in expired;
        entries := entries - {key};
        expired := expired - {key};
      }
    }

    method Count(now: real) returns (count: nat)
      modifies this
      ensures entries == Pruned(old(entries), now) && count == |entries|
    {
      Prune(now);
      return |entries|;
    }
  }
}
/** Every interleaving of issuing, consuming and counting, against what the history alone says. */
module ChallengeHistory {
  import opened Wrappers
  import opened ChallengeStore

  /** Issuing reads the clock and fixes the deadline (Begin), and only later takes the lock and inserts (Finish). */
  datatype Event =
    | Begin(challenge: Challenge, when: real)
    | Finish(challenge: Challenge, when: real)
    | Consume(id: string, when: real)
    | Count(when: real)

  /** Deadlines of the issues in progress, and the store. */
  datatype State = State(pending: map<string, real>, entries: map<string, Entry>)

  function Next(ttl: real, s: State, event: Event): State {
    match event
    case Begin(challenge, when) => s.(pending := s.pending[challenge.challengeId := when + ttl])
    case Finish(challenge, when) =>
      if challenge.challengeId !in s.pending then s
      else State(s.pending, Inserted(s.entries, s.pending[challenge.challengeId], challenge, when))
    case Consume(id, when) => s.(entries := Taken(s.entries, id, when).0)
    case Count(when) => s.(entries := Pruned(s.entries, when))
  }

  /** The state before the n-th event. */
  function Before(ttl: real, history: seq<Event>, n: nat): State
    requires n <= |history|
  {
    if n == 0 then State(map[], map[]) else Next(ttl, Before(ttl, history, n - 1), history[n - 1])
  }

  /** What consuming returns, if the n-th event consumes. */
  function Returned(ttl: real, history: seq<Event>, n: nat): Option<Challenge>
    requires n < |history|
  {
    match history[n]
    case Consume(id, when) => Taken(Before(ttl, history, n).entries, id, when).1
    case _ => None
  }

  ghost predicate Begins(history: seq<Event>, b: int, challenge: Challenge) {
    0 <= b < |history| && history[b].Begin? && history[b].challenge == challenge
  }

  ghost predicate Finishes(history: seq<Event>, f: int, challenge: Challenge) {
    0 <= f < |history| && history[f].Finish? && history[f].challenge == challenge
  }

  /** The clock never goes back, identifiers are fresh, and each issue finishes at most once, after it began. */
  ghost predicate Possible(history: seq<Event>) {
    && (forall i, j | 0 <= i < j < |history| :: history[i].when <= history[j].when)
    && (forall i, j, x, y | 0 <= i < j && Begins(history, i, x) && Begins(history, j, y) ::
          x.challengeId != y.challengeId)
    && (forall i, j, x, y | 0 <= i < j && Finishes(history, i, x) && Finishes(history, j, y) ::
          x.challengeId != y.challengeId)
    && (forall f, x | Finishes(history, f, x) :: exists b :: b < f && Begins(history, b, x))
  }

  /** The challenge was issued before the n-th event, with this deadline. */
  ghost predicate Issued(ttl: real, history: seq<Event>, n: nat, challenge: Challenge, deadline: real) {
    exists b, f :: b < f < n && Begins(history, b, challenge) && Finishes(history, f, challenge) &&
      deadline == history[b].when + ttl
  }

  ghost predicate Spent(ttl: real, history: seq<Event>, n: nat, id: string)
    requires n <= |history|
  {
    exists m: nat :: m < n && history[m].Consume? && history[m].id == id && Returned(ttl, history, m).Some?
  }

  /** Issued, not returned by any earlier event, and its deadline still to come. */
  ghost predicate Live(ttl: real, history: seq<Event>, n: nat, challenge: Challenge, when: real)
    requires n <= |history|
  {
    (exists deadline :: Issued(ttl, history, n, challenge, deadline) && deadline > when) &&
    !Spent(ttl, history, n, challenge.challengeId)
  }

  ghost predicate Elapsed(history: seq<Event>, n: nat, deadline: real)
    requires n <= |history|
  {
    n > 0 && deadline <= history[n - 1].when
  }

  ghost predicate KeepsPending(ttl: real, history: seq<Event>, n: nat, pending: map<string, real>) {
    forall b, x | b < n && Begins(history, b, x) ::
      x.challengeId in pending && pending[x.challengeId] == history[b].when + ttl
  }

  ghost predicate Finished(history: seq<Event>, n: nat, id: string) {
    exists f, x :: f < n && Finishes(history, f, x) && x.challengeId == id
  }

  /** The store holds only issued challenges that were not returned. */
  ghost predicate HoldsOnly(ttl: real, history: seq<Event>, n: nat, entries: map<string, Entry>)
    requires n <= |history|
  {
    forall id | id in entries ::
      && entries[id].challenge.challengeId == id
      && Issued(ttl, history, n, entries[id].challenge, entries[id].deadline)
      && !Spent(ttl, history, n, id)
  }

  /** It holds every such challenge whose deadline has not passed by the latest event. */
  ghost predicate HoldsAll(ttl: real, history: seq<Event>, n: nat, entries: map<string, Entry>)
    requires n <= |history|
  {
    forall x, deadline | Issued(ttl, history, n, x, deadline) && !Elapsed(history, n, deadline) &&
      !Spent(ttl, history, n, x.challengeId) ::
      x.challengeId in entries && entries[x.challengeId] == Entry(deadline, x)
  }

  ghost predicate SpentFinished(ttl: real, history: seq<Event>, n: nat)
    requires n <= |history|
  {
    forall id | Spent(ttl, history, n, id) :: Finished(history, n, id)
  }

  ghost predicate Agrees(ttl: real, history: seq<Event>, n: nat, entries: map<string, Entry>)
    requires n <= |history|
  {
    HoldsOnly(ttl, history, n, entries) && HoldsAll(ttl, history, n, entries) && SpentFinished(ttl, history, n)
  }

  lemma PendingKept(ttl: real, history: seq<Event>, n: nat)
    requires Possible(history) && n < |history|
    requires KeepsPending(ttl, history, n, Before(ttl, history, n).pending)
    ensures KeepsPending(ttl, history, n + 1, Before(ttl, history, n + 1).pending)
  {
    StepOf(ttl, history, n);
    hide Before, Inserted, Taken, Pruned;
    var event := history[n];
    assert event.Begin? ==> Begins(history, n, event.challenge);
  }

  lemma StepOf(ttl: real, history: seq<Event>, n: nat)
    requires n < |history|
    ensures Before(ttl, history, n + 1) == Next(ttl, Before(ttl, history, n), history[n])
  {
  }

  lemma IssuedNext(ttl: real, history: seq<Event>, n: nat, x: Challenge, deadline: real)
    requires n < |history|
    ensures Issued(ttl, history, n + 1, x, deadline) <==>
      || Issued(ttl, history, n, x, deadline)
      || (Finishes(history, n, x) && exists b :: b < n && Begins(history, b, x) && deadline == history[b].when + ttl)
  {
    if Issued(ttl, history, n + 1, x, deadline) {
      var b, f :| b < f < n + 1 && Begins(history, b, x) && Finishes(history, f, x) &&
        deadline == history[b].when + ttl;
      assert f < n ==> Issued(ttl, history, n, x, deadline);
    }
  }

  lemma SpentNext(ttl: real, history: seq<Event>, n: nat, id: string)
    requires n < |history|
    ensures Spent(ttl, history, n + 1, id) <==>
      Spent(ttl, history, n, id) || (history[n].Consume? && history[n].id == id && Returned(ttl, history, n).Some?)
  {
    hide Returned;
    if history[n].Consume? && history[n].id == id && Returned(ttl, history, n).Some? {
      assert n < n + 1;
    }
  }

  lemma FinishedNext(history: seq<Event>, n: nat, id: string)
    ensures Finished(history, n, id) ==> Finished(history, n + 1, id)
  {
  }

  lemma ElapsedNext(history: seq<Event>, n: nat, deadline: real)
    requires Possible(history) && n < |history|
    ensures Elapsed(history, n, deadline) ==> Elapsed(history, n + 1, deadline)
    ensures Elapsed(history, n + 1, deadline) <==> deadline <= history[n].when
  {
  }

  /** Beginning and counting issue nothing, return nothing, and prune at most what has expired. */
  lemma QuietHolds(ttl: real, history: seq<Event>, n: nat, m: nat, was: map<string, Entry>, after: map<string, Entry>)
    requires Possible(history) && m == n + 1 <= |history| && (history[n].Count? || history[n].Begin?)
    requires HoldsOnly(ttl, history, n, was) && HoldsAll(ttl, history, n, was) && SpentFinished(ttl, history, n)
    requires after == was || after == Pruned(was, history[n].when)
    ensures HoldsOnly(ttl, history, m, after) && HoldsAll(ttl, history, m, after) && SpentFinished(ttl, history, m)
  {
    hide Issued, Spent, Finished, Elapsed, Returned;
    forall x, deadline
      ensures Issued(ttl, history, m, x, deadline) <==> Issued(ttl, history, n, x, deadline)
      ensures !Elapsed(history, m, deadline) ==> !Elapsed(history, n, deadline) && deadline > history[n].when
    {
      IssuedNext(ttl, history, n, x, deadline);
      ElapsedNext(history, n, deadline);
    }
    hide Possible;
    forall id
      ensures Spent(ttl, history, m, id) <==> Spent(ttl, history, n, id)
      ensures Finished(history, n, id) ==> Finished(history, m, id)
    {
      SpentNext(ttl, history, n, id);
      FinishedNext(history, n, id);
    }
    assert HoldsOnly(ttl, history, m, after) by {
      hide HoldsAll, SpentFinished;
    }
    assert SpentFinished(ttl, history, m) by {
      hide HoldsAll, HoldsOnly;
    }
    hide HoldsOnly, SpentFinished;
  }

  lemma QuietAgrees(ttl: real, history: seq<Event>, n: nat)
    requires Possible(history) && n < |history| && (history[n].Count? || history[n].Begin?)
    requires Agrees(ttl, history, n, Before(ttl, history, n).entries)
    ensures Agrees(ttl, history, n + 1, Before(ttl, history, n + 1).entries)
  {
    StepOf(ttl, history, n);
    hide Before, Possible, Pruned, HoldsOnly, HoldsAll, SpentFinished;
    QuietHolds(ttl, history, n, n + 1, Before(ttl, history, n).entries, Before(ttl, history, n + 1).entries);
  }

  lemma ConsumeIssues(ttl: real, history: seq<Event>, n: nat, m: nat)
    requires Possible(history) && m == n + 1 <= |history| && history[n].Consume?
    ensures forall x, deadline | Issued(ttl, history, m, x, deadline) :: Issued(ttl, history, n, x, deadline)
    ensures forall x, deadline | Issued(ttl, history, n, x, deadline) ::
      Issued(ttl, history, m, x, deadline) && Finished(history, n, x.challengeId)
    ensures forall id | Finished(history, n, id) :: Finished(history, m, id)
  {
    hide Issued, Finished, Possible;
    forall x, deadline
      ensures Issued(ttl, history, m, x, deadline) <==> Issued(ttl, history, n, x, deadline)
    {
      IssuedNext(ttl, history, n, x, deadline);
    }
    forall x, deadline | Issued(ttl, history, n, x, deadline)
      ensures Finished(history, n, x.challengeId)
    {
      IssuedFinished(ttl, history, n, x, deadline);
    }
    forall id | Finished(history, n, id)
      ensures Finished(history, m, id)
    {
      FinishedNext(history, n, id);
    }
  }

  lemma ConsumeSpends(ttl: real, history: seq<Event>, n: nat, m: nat)
    requires m == n + 1 <= |history| && history[n].Consume?
    ensures forall id :: Spent(ttl, history, m, id) <==>
      Spent(ttl, history, n, id) || (history[n].id == id && Returned(ttl, history, n).Some?)
  {
    hide Spent, Returned;
    forall id
      ensures Spent(ttl, history, m, id) <==>
        Spent(ttl, history, n, id) || (history[n].id == id && Returned(ttl, history, n).Some?)
    {
      SpentNext(ttl, history, n, id);
    }
  }

  lemma TakenIs(entries: map<string, Entry>, id: string, now: real)
    ensures
      var (after, taken) := Taken(entries, id, now);
      && (forall key :: key in after <==> key in entries && entries[key].deadline > now && key != id)
      && (forall key | key in after :: after[key] == entries[key])
      && (taken.Some? <==> id in entries && entries[id].deadline > now)
  {
  }

  lemma ConsumeHoldsOnly(ttl: real, history: seq<Event>, n: nat, m: nat, was: map<string, Entry>)
    requires Possible(history) && m == n + 1 <= |history| && history[n].Consume? &&
      was == Before(ttl, history, n).entries
    requires HoldsOnly(ttl, history, n, was)
    ensures HoldsOnly(ttl, history, m, Taken(was, history[n].id, history[n].when).0)
  {
    hide Before, Issued, Spent, Returned, Possible, Finished, Taken;
    ConsumeIssues(ttl, history, n, m);
    ConsumeSpends(ttl, history, n, m);
    TakenIs(was, history[n].id, history[n].when);
  }

  lemma ConsumeSpentFinished(ttl: real, history: seq<Event>, n: nat, m: nat, was: map<string, Entry>)
    requires Possible(history) && m == n + 1 <= |history| && history[n].Consume? &&
      was == Before(ttl, history, n).entries
    requires HoldsOnly(ttl, history, n, was) && SpentFinished(ttl, history, n)
    ensures SpentFinished(ttl, history, m)
  {
    ReturnedIs(ttl, history, n);
    hide Before, Issued, Spent, Returned, Possible, Finished, Taken;
    ConsumeIssues(ttl, history, n, m);
    ConsumeSpends(ttl, history, n, m);
    TakenIs(was, history[n].id, history[n].when);
  }

  lemma ConsumeHoldsAll(ttl: real, history: seq<Event>, n: nat, m: nat, was: map<string, Entry>)
    requires Possible(history) && m == n + 1 <= |history| && history[n].Consume? &&
      was == Before(ttl, history, n).entries
    requires HoldsAll(ttl, history, n, was)
    ensures HoldsAll(ttl, history, m, Taken(was, history[n].id, history[n].when).0)
  {
    ReturnedIs(ttl, history, n);
    hide Before, Issued, Spent, Returned, Finished, Taken, Elapsed;
    var id, now := history[n].id, history[n].when;
    forall deadline
      ensures !Elapsed(history, m, deadline) ==> !Elapsed(history, n, deadline) && deadline > now
    {
      ElapsedNext(history, n, deadline);
    }
    hide Possible;
    ConsumeIssues(ttl, history, n, m);
    ConsumeSpends(ttl, history, n, m);
    TakenIs(was, id, now);
  }

  lemma ConsumeAgrees(ttl: real, history: seq<Event>, n: nat)
    requires Possible(history) && n < |history| && history[n].Consume?
    requires Agrees(ttl, history, n, Before(ttl, history, n).entries)
    ensures Agrees(ttl, history, n + 1, Before(ttl, history, n + 1).entries)
  {
    StepOf(ttl, history, n);
    hide Before, HoldsOnly, HoldsAll, SpentFinished, Possible, Taken;
    var was := Before(ttl, history, n).entries;
    ConsumeHoldsOnly(ttl, history, n, n + 1, was);
    ConsumeSpentFinished(ttl, history, n, n + 1, was);
    ConsumeHoldsAll(ttl, history, n, n + 1, was);
  }

  lemma IssuedFinished(ttl: real, history: seq<Event>, n: nat, x: Challenge, deadline: real)
    requires Issued(ttl, history, n, x, deadline)
    ensures Finished(history, n, x.challengeId)
  {
  }

  lemma ReturnedIs(ttl: real, history: seq<Event>, n: nat)
    requires n < |history| && history[n].Consume?
    ensures Returned(ttl, history, n) == Taken(Before(ttl, history, n).entries, history[n].id, history[n].when).1
  {
  }

  /** Finishing issues exactly this challenge, with the deadline fixed when it began, under an identifier not finished
      before. */
  lemma FinishIssues(ttl: real, history: seq<Event>, n: nat, m: nat, c: Challenge, d: real)
    requires Possible(history) && m == n + 1 <= |history| && Finishes(history, n, c)
    requires KeepsPending(ttl, history, n, Before(ttl, history, n).pending)
    requires c.challengeId in Before(ttl, history, n).pending ==> d == Before(ttl, history, n).pending[c.challengeId]
    ensures c.challengeId in Before(ttl, history, n).pending
    ensures Issued(ttl, history, m, c, d)
    ensures forall x, deadline | Issued(ttl, history, m, x, deadline) ::
      Issued(ttl, history, n, x, deadline) || (x == c && deadline == d)
    ensures !Finished(history, n, c.challengeId)
  {
    hide Before, Issued;
    var b :| b < n && Begins(history, b, c);
    IssuedNext(ttl, history, n, c, d);
    forall x, deadline | Issued(ttl, history, m, x, deadline)
      ensures Issued(ttl, history, n, x, deadline) || (x == c && deadline == d)
    {
      IssuedNext(ttl, history, n, x, deadline);
    }
  }

  lemma IssuedStays(ttl: real, history: seq<Event>, n: nat, m: nat)
    requires m == n + 1 <= |history|
    ensures forall x, deadline | Issued(ttl, history, n, x, deadline) ::
      Issued(ttl, history, m, x, deadline) && Finished(history, n, x.challengeId)
    ensures forall id | Finished(history, n, id) :: Finished(history, m, id)
  {
    hide Issued, Finished;
    forall x, deadline | Issued(ttl, history, n, x, deadline)
      ensures Issued(ttl, history, m, x, deadline) && Finished(history, n, x.challengeId)
    {
      IssuedNext(ttl, history, n, x, deadline);
      IssuedFinished(ttl, history, n, x, deadline);
    }
    forall id | Finished(history, n, id)
      ensures Finished(history, m, id)
    {
      FinishedNext(history, n, id);
    }
  }

  lemma FinishSpends(ttl: real, history: seq<Event>, n: nat, m: nat)
    requires m == n + 1 <= |history| && history[n].Finish?
    ensures forall id :: Spent(ttl, history, m, id) <==> Spent(ttl, history, n, id)
  {
    hide Spent, Returned;
    forall id
      ensures Spent(ttl, history, m, id) <==> Spent(ttl, history, n, id)
    {
      SpentNext(ttl, history, n, id);
    }
  }

  lemma InsertedIs(entries: map<string, Entry>, deadline: real, c: Challenge, now: real)
    ensures
      var after := Inserted(entries, deadline, c, now);
      && c.challengeId in after && after[c.challengeId] == Entry(deadline, c)
      && (forall key | key in after && key != c.challengeId :: key in entries && after[key] == entries[key])
      && (forall key | key in entries && entries[key].deadline > now && key != c.challengeId ::
            key in after && after[key] == entries[key])
  {
  }

  /** What one insertion changes in the history's terms. */
  ghost predicate Adds(ttl: real, history: seq<Event>, n: nat, m: nat, c: Challenge, d: real)
    requires n <= m <= |history|
  {
    && Issued(ttl, history, m, c, d)
    && !Finished(history, n, c.challengeId)
    && (forall x, deadline | Issued(ttl, history, m, x, deadline) ::
          Issued(ttl, history, n, x, deadline) || (x == c && deadline == d))
    && (forall x, deadline | Issued(ttl, history, n, x, deadline) ::
          Issued(ttl, history, m, x, deadline) && Finished(history, n, x.challengeId))
    && (forall id | Finished(history, n, id) :: Finished(history, m, id))
    && (forall id :: Spent(ttl, history, m, id) <==> Spent(ttl, history, n, id))
  }

  lemma AddedHoldsOnly(ttl: real, history: seq<Event>, n: nat, m: nat, c: Challenge, d: real, was: map<string, Entry>,
                       now: real)
    requires n <= m <= |history| && Adds(ttl, history, n, m, c, d)
    requires HoldsOnly(ttl, history, n, was) && SpentFinished(ttl, history, n)
    ensures HoldsOnly(ttl, history, m, Inserted(was, d, c, now))
  {
    hide Issued, Spent, Finished, Inserted;
    InsertedIs(was, d, c, now);
  }

  lemma AddedHoldsAll(ttl: real, history: seq<Event>, n: nat, m: nat, c: Challenge, d: real, was: map<string, Entry>,
                      now: real)
    requires n <= m <= |history| && Adds(ttl, history, n, m, c, d)
    requires HoldsAll(ttl, history, n, was)
    requires forall deadline :: !Elapsed(history, m, deadline) ==> !Elapsed(history, n, deadline) && deadline > now
    ensures HoldsAll(ttl, history, m, Inserted(was, d, c, now))
  {
    hide Issued, Spent, Finished, Inserted, Elapsed;
    InsertedIs(was, d, c, now);
  }

  lemma AddedSpentFinished(ttl: real, history: seq<Event>, n: nat, m: nat, c: Challenge, d: real)
    requires n <= m <= |history| && Adds(ttl, history, n, m, c, d)
    requires SpentFinished(ttl, history, n)
    ensures SpentFinished(ttl, history, m)
  {
    hide Issued, Spent, Finished;
  }

  lemma FinishAgrees(ttl: real, history: seq<Event>, n: nat)
    requires Possible(history) && n < |history| && history[n].Finish?
    requires KeepsPending(ttl, history, n, Before(ttl, history, n).pending)
    requires Agrees(ttl, history, n, Before(ttl, history, n).entries)
    ensures Agrees(ttl, history, n + 1, Before(ttl, history, n + 1).entries)
  {
    StepOf(ttl, history, n);
    hide Before, Issued, Spent, Finished, Inserted, Elapsed, KeepsPending, HoldsOnly, HoldsAll, SpentFinished;
    var m := n + 1;
    var c, now, before := history[n].challenge, history[n].when, Before(ttl, history, n);
    var d := if c.challengeId in before.pending then before.pending[c.challengeId] else 0.0;
    FinishIssues(ttl, history, n, m, c, d);
    forall deadline
      ensures !Elapsed(history, m, deadline) ==> !Elapsed(history, n, deadline) && deadline > now
    {
      ElapsedNext(history, n, deadline);
    }
    hide Possible;
    IssuedStays(ttl, history, n, m);
    FinishSpends(ttl, history, n, m);
    assert Adds(ttl, history, n, m, c, d);
    hide Adds;
    AddedHoldsOnly(ttl, history, n, m, c, d, before.entries, now);
    AddedHoldsAll(ttl, history, n, m, c, d, before.entries, now);
    AddedSpentFinished(ttl, history, n, m, c, d);
  }

  lemma {:induction false} StoreAgrees(ttl: real, history: seq<Event>, n: nat)
    requires Possible(history) && n <= |history|
    ensures KeepsPending(ttl, history, n, Before(ttl, history, n).pending)
    ensures Agrees(ttl, history, n, Before(ttl, history, n).entries)
  {
    hide Possible, Issued, Spent, Finished, Elapsed;
    if n == 0 {
      NothingYet(ttl, history);
    } else {
      StoreAgrees(ttl, history, n - 1);
      hide Before, KeepsPending, Agrees;
      PendingKept(ttl, history, n - 1);
      match history[n - 1]
      case Begin(_, _) => QuietAgrees(ttl, history, n - 1);
      case Count(_) => QuietAgrees(ttl, history, n - 1);
      case Consume(_, _) => ConsumeAgrees(ttl, history, n - 1);
      case Finish(_, _) => FinishAgrees(ttl, history, n - 1);
    }
  }

  lemma NothingYet(ttl: real, history: seq<Event>)
    ensures KeepsPending(ttl, history, 0, map[]) && Agrees(ttl, history, 0, map[])
  {
  }

  lemma AliveIs(ttl: real, history: seq<Event>, n: nat, when: real, x: Challenge)
    requires Possible(history) && n <= |history| && (n > 0 ==> history[n - 1].when <= when)
    ensures
      var held := Pruned(Before(ttl, history, n).entries, when);
      Live(ttl, history, n, x, when) <==> x.challengeId in held && held[x.challengeId].challenge == x
  {
    StoreAgrees(ttl, history, n);
    hide Possible, Issued, Spent, SpentFinished, Before;
    var entries := Before(ttl, history, n).entries;
    if Live(ttl, history, n, x, when) {
      var deadline :| Issued(ttl, history, n, x, deadline) && deadline > when;
      assert !Elapsed(history, n, deadline);
    }
    hide HoldsAll;
    var held := Pruned(entries, when);
    if x.challengeId in held && held[x.challengeId].challenge == x {
      assert Issued(ttl, history, n, x, entries[x.challengeId].deadline);
    }
  }

  /** Consuming returns a challenge exactly when the history issued it under that identifier, no earlier event returned
      it, and its deadline is still to come. */
  lemma ConsumeIsExact(ttl: real, history: seq<Event>, n: nat, x: Challenge)
    requires Possible(history) && n < |history| && history[n].Consume?
    ensures Returned(ttl, history, n) == Some(x) <==>
      x.challengeId == history[n].id && Live(ttl, history, n, x, history[n].when)
  {
    ReturnedIs(ttl, history, n);
    StoreAgrees(ttl, history, n);
    AliveIs(ttl, history, n, history[n].when, x);
    hide Possible, Issued, Spent, HoldsAll, SpentFinished, Before, Live, Returned;
  }

  /** No two events return the same challenge, nor two challenges under one identifier. */
  lemma ReturnedAtMostOnce(ttl: real, history: seq<Event>, m: nat, n: nat)
    requires Possible(history) && m < n < |history|
    requires Returned(ttl, history, m).Some? && Returned(ttl, history, n).Some?
    ensures Returned(ttl, history, m).value.challengeId != Returned(ttl, history, n).value.challengeId
    ensures history[m].id != history[n].id
  {
    hide Possible, Issued, Before;
    var x, y := Returned(ttl, history, m).value, Returned(ttl, history, n).value;
    ConsumeIsExact(ttl, history, m, x);
    ConsumeIsExact(ttl, history, n, y);
  }

  /** Counting returns the number of live identifiers. */
  lemma CountIsExact(ttl: real, history: seq<Event>, n: nat, ids: set<string>)
    requires Possible(history) && n < |history| && history[n].Count?
    requires forall id :: id in ids <==> exists x: Challenge ::
      x.challengeId == id && Live(ttl, history, n, x, history[n].when)
    ensures |Pruned(Before(ttl, history, n).entries, history[n].when)| == |ids|
  {
    StoreAgrees(ttl, history, n);
    var when := history[n].when;
    forall x
      ensures
        var held := Pruned(Before(ttl, history, n).entries, when);
        Live(ttl, history, n, x, when) <==> x.challengeId in held && held[x.challengeId].challenge == x
    {
      AliveIs(ttl, history, n, when, x);
    }
    hide Possible, Issued, Spent, HoldsAll, SpentFinished, Before, Live;
    var held := Pruned(Before(ttl, history, n).entries, when);
    assert held.Keys == ids by {
      forall id | id in held
        ensures id in ids
      {
        assert Live(ttl, history, n, held[id].challenge, when);
      }
    }
    assert |held| == |held.Keys|;
  }
}
