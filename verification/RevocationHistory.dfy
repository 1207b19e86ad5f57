/** Whole runs: a producer and a consumer replicating a feed, and registries that only ever learn more. */
module RevocationHistory {
  import opened Wrappers
  import opened Crypto
  import opened Delegation
  import opened Chains
  import opened Feed

  // ----- replication -----

  datatype Delta = Delta(entries: seq<FeedEntry>, newest: int, since: int)

  /** A producer's log, and a consumer's registry, persisted cursor and fetched but not yet applied delta. */
  datatype System = System(log: seq<FeedEntry>, registry: Known, cursor: int, inFlight: Option<Delta>)

  /** The producer appends between any two consumer steps; a fetched delta may be lost before it is applied. */
  datatype Step = Append(record: Record) | Fetch | Apply(when: int) | Lose

  function Next(scheme: Scheme, s: System, step: Step): System {
    match step
    case Append(record) =>
      if RecordVerifies(scheme, record) then s.(log := s.log + [EntryFor(|s.log| + 1, record)]) else s
    case Fetch => s.(inFlight := Some(Delta(Since(s.log, s.cursor), |s.log|, s.cursor)))
    case Apply(when) =>
      (match s.inFlight
       case None => s
       case Some(d) =>
         var (registry, persisted) := Applied(scheme, s.registry, d.entries, d.newest, when, d.since);
         System(s.log, registry, if persisted.Some? then persisted.value else s.cursor, None))
    case Lose => s.(inFlight := None)
  }

  function Run(scheme: Scheme, s: System, steps: seq<Step>): System {
    if steps == [] then s else Next(scheme, Run(scheme, s, steps[..|steps| - 1]), steps[|steps| - 1])
  }

  const START := System([], Known({}, {}, None), 0, None)

  /** The delta in flight is the stretch of the log after the consumer's cursor, up to some later point. */
  ghost predicate InFlightIsCurrent(s: System) {
    s.inFlight.Some? ==>
      && 0 <= s.inFlight.value.since == s.cursor <= s.inFlight.value.newest <= |s.log|
      && s.inFlight.value.entries == s.log[s.cursor..s.inFlight.value.newest]
  }

  /** The registry holds what it held at `origin`, and exactly the log's records from there to its cursor. */
  ghost predicate InStep(scheme: Scheme, s: System, base: Known, origin: nat) {
    && IsLog(scheme, s.log)
    && origin <= s.cursor <= |s.log|
    && s.registry.(syncedAt := None) == Absorb(base, s.log[origin..s.cursor]).(syncedAt := None)
    && InFlightIsCurrent(s)
  }

  /** The sync time does not matter to what is absorbed. */
  lemma AbsorbIgnoresTime(known: Known, other: Known, entries: seq<FeedEntry>)
    requires known.(syncedAt := None) == other.(syncedAt := None)
    ensures Absorb(known, entries).(syncedAt := None) == Absorb(other, entries).(syncedAt := None)
  {
  }

  /** Applying a stretch of the log to a registry at its start always succeeds. */
  lemma HonestDeltaApplies(scheme: Scheme, known: Known, log: seq<FeedEntry>, since: nat, newest: nat, when: int)
    requires IsLog(scheme, log) && since <= newest <= |log|
    ensures Applied(scheme, known, log[since..newest], newest, when, since) ==
      (Absorb(known, log[since..newest]).(syncedAt := Some(when)), Some(newest))
  {
    hide EntryVerifies, EntryValid, Absorb;
    var entries := log[since..newest];
    forall i | 0 <= i < |entries|
      ensures entries[i].seqno == since + 1 + i && EntryValid(entries[i]) && EntryVerifies(scheme, entries[i])
    {
      assert entries[i] == log[since + i];
    }
    VerifiedPrefixIsLongest(scheme, entries);
  }

  lemma AppendKeepsLog(scheme: Scheme, log: seq<FeedEntry>, record: Record)
    requires IsLog(scheme, log) && RecordVerifies(scheme, record)
    ensures IsLog(scheme, log + [EntryFor(|log| + 1, record)])
  {
    hide RecordVerifies;
    ReviveInvertsEntry(|log| + 1, record);
  }

  lemma SliceOfLonger(log: seq<FeedEntry>, more: seq<FeedEntry>, i: nat, j: nat)
    requires i <= j <= |log|
    ensures (log + more)[i..j] == log[i..j]
  {
  }

  lemma NextAppend(scheme: Scheme, s: System, record: Record)
    requires RecordVerifies(scheme, record)
    ensures Next(scheme, s, Append(record)) ==
      System(s.log + [EntryFor(|s.log| + 1, record)], s.registry, s.cursor, s.inFlight)
  {
    hide RecordVerifies, EntryFor;
  }

  lemma InFlightStays(s: System, more: seq<FeedEntry>)
    requires InFlightIsCurrent(s) && 0 <= s.cursor
    ensures InFlightIsCurrent(System(s.log + more, s.registry, s.cursor, s.inFlight))
  {
    if s.inFlight.Some? {
      SliceOfLonger(s.log, more, s.cursor, s.inFlight.value.newest);
    }
  }

  lemma AppendInStep(scheme: Scheme, s: System, base: Known, origin: nat, record: Record)
    requires InStep(scheme, s, base, origin) && RecordVerifies(scheme, record)
    ensures InStep(scheme, Next(scheme, s, Append(record)), base, origin)
  {
    hide RecordVerifies, Absorb, EntryFor, IsLog, Next, InFlightIsCurrent;
    var more := [EntryFor(|s.log| + 1, record)];
    NextAppend(scheme, s, record);
    AppendKeepsLog(scheme, s.log, record);
    SliceOfLonger(s.log, more, origin, s.cursor);
    InFlightStays(s, more);
  }

  lemma FetchInStep(scheme: Scheme, s: System, base: Known, origin: nat)
    requires InStep(scheme, s, base, origin)
    ensures InStep(scheme, Next(scheme, s, Fetch), base, origin)
  {
    var fetched := Delta(Since(s.log, s.cursor), |s.log|, s.cursor);
    assert Next(scheme, s, Fetch) == s.(inFlight := Some(fetched));
    SinceIsSuffix(scheme, s.log, s.cursor);
    hide Absorb, IsLog, Since, Next;
    SuffixIsSlice(s.log, s.cursor);
  }

  lemma SuffixIsSlice(log: seq<FeedEntry>, i: int)
    requires 0 <= i <= |log|
    ensures log[i..|log|] == if i <= 0 then log else if i >= |log| then [] else log[i..]
  {
  }

  lemma NextApply(scheme: Scheme, s: System, when: int)
    requires IsLog(scheme, s.log) && InFlightIsCurrent(s) && s.inFlight.Some?
    ensures
      var newest := s.inFlight.value.newest;
      var grown := Absorb(s.registry, s.log[s.cursor..newest]).(syncedAt := Some(when));
      Next(scheme, s, Apply(when)) == System(s.log, grown, newest, None)
  {
    hide Applied, IsLog, Absorb;
    HonestDeltaApplies(scheme, s.registry, s.log, s.cursor, s.inFlight.value.newest, when);
  }

  lemma ApplyInStep(scheme: Scheme, s: System, base: Known, origin: nat, when: int)
    requires InStep(scheme, s, base, origin) && s.inFlight.Some?
    ensures InStep(scheme, Next(scheme, s, Apply(when)), base, origin)
    ensures Next(scheme, s, Apply(when)).cursor == s.inFlight.value.newest
  {
    hide Applied, IsLog, Absorb, Next;
    NextApply(scheme, s, when);
    StretchesJoin(base, s.registry, s.log, origin, s.cursor, s.inFlight.value.newest);
  }

  lemma SlicesJoin(log: seq<FeedEntry>, i: nat, j: nat, k: nat)
    requires i <= j <= k <= |log|
    ensures log[i..j] + log[j..k] == log[i..k]
  {
  }

  lemma StretchesJoin(base: Known, known: Known, log: seq<FeedEntry>, origin: nat, since: nat, newest: nat)
    requires origin <= since <= newest <= |log|
    requires known.(syncedAt := None) == Absorb(base, log[origin..since]).(syncedAt := None)
    ensures Absorb(known, log[since..newest]).(syncedAt := None) == Absorb(base, log[origin..newest]).(syncedAt := None)
  {
    hide Absorb;
    AbsorbIgnoresTime(known, Absorb(base, log[origin..since]), log[since..newest]);
    AbsorbAppend(base, log[origin..since], log[since..newest]);
    SlicesJoin(log, origin, since, newest);
  }

  lemma StepInStep(scheme: Scheme, s: System, base: Known, origin: nat, step: Step)
    requires InStep(scheme, s, base, origin)
    ensures InStep(scheme, Next(scheme, s, step), base, origin)
  {
    hide Applied, RecordVerifies, Absorb, IsLog, Since, EntryFor;
    match step
    case Append(record) =>
      if RecordVerifies(scheme, record) {
        AppendInStep(scheme, s, base, origin, record);
      }
    case Fetch => FetchInStep(scheme, s, base, origin);
    case Apply(when) =>
      if s.inFlight.Some? {
        ApplyInStep(scheme, s, base, origin, when);
      }
    case Lose =>
  }

  lemma {:induction false} RunInStep(scheme: Scheme, s: System, base: Known, origin: nat, steps: seq<Step>)
    requires InStep(scheme, s, base, origin)
    ensures InStep(scheme, Run(scheme, s, steps), base, origin)
  {
    hide InStep, Next;
    if steps != [] {
      var front := steps[..|steps| - 1];
      RunInStep(scheme, s, base, origin, front);
      StepInStep(scheme, Run(scheme, s, front), base, origin, steps[|steps| - 1]);
    }
  }

  /** Replication is exact: in every interleaving of appends, fetches, losses and applications, the consumer's registry
      is exactly the revocations of the log's first `cursor` entries, and every application of a delta succeeds. */
  lemma ReplicationIsExact(scheme: Scheme, steps: seq<Step>, when: int)
    ensures
      var s := Run(scheme, START, steps);
      && 0 <= s.cursor <= |s.log|
      && s.registry.digests == DigestsOf(s.log[..s.cursor])
      && s.registry.revokedKeys == KeysOf(s.log[..s.cursor])
      && (s.inFlight.Some? ==>
            var d := s.inFlight.value;
            Applied(scheme, s.registry, d.entries, d.newest, when, d.since).1 == Some(d.newest))
  {
    var empty := Known({}, {}, None);
    AbsorbNone(empty);
    assert InStep(scheme, START, empty, 0);
    RunInStep(scheme, START, empty, 0, steps);
    var s := Run(scheme, START, steps);
    hide Run, DigestsOf, KeysOf, Applied;
    assert s.log[0..s.cursor] == s.log[..s.cursor];
    if s.inFlight.Some? {
      HonestDeltaApplies(scheme, s.registry, s.log, s.cursor, s.inFlight.value.newest, when);
    }
  }

  /** A sync succeeds exactly when its cursor is not negative or the log is empty. */
  lemma SyncSucceeds(scheme: Scheme, known: Known, log: seq<FeedEntry>, cursor: int, when: int)
    requires IsLog(scheme, log)
    ensures
      var (after, persisted) := Applied(scheme, known, Since(log, cursor), |log|, when, cursor);
      && (persisted.Some? <==> cursor >= 0 || log == [])
      && (persisted.Some? ==> persisted.value == |log|)
      && (0 <= cursor <= |log| ==> after == Absorb(known, log[cursor..]).(syncedAt := Some(when)))
  {
    hide EntryVerifies, EntryValid, Absorb, Since, Applied;
    SinceIsSuffix(scheme, log, cursor);
    if 0 <= cursor <= |log| {
      HonestDeltaApplies(scheme, known, log, cursor, |log|, when);
      assert log[cursor..|log|] == log[cursor..];
    } else if cursor < 0 && log != [] {
      assert log[0].seqno == 1;
      NegativeCursorFails(scheme, known, log, cursor, when);
    } else {
      assert Since(log, cursor) == [];
      EmptyDeltaApplies(scheme, known, |log|, when, cursor);
    }
  }

  lemma NegativeCursorFails(scheme: Scheme, known: Known, log: seq<FeedEntry>, cursor: int, when: int)
    requires log != [] && log[0].seqno == 1 && cursor < 0
    ensures Applied(scheme, known, log, |log|, when, cursor).1 == None
  {
    hide EntryVerifies, EntryValid, Absorb;
  }

  lemma EmptyDeltaApplies(scheme: Scheme, known: Known, newest: int, when: int, since: int)
    ensures Applied(scheme, known, [], newest, when, since).1 == Some(newest)
  {
  }

  /** From any corrupted cursor that is not negative, one sync converges: the cursor becomes the log's, and in every
      later run each entry appended from then on is applied, on top of whatever the registry held. */
  lemma CorruptedCursorConverges(scheme: Scheme, known: Known, log: seq<FeedEntry>, cursor: nat, when: int,
                                 steps: seq<Step>)
    requires IsLog(scheme, log)
    ensures
      var broken := System(log, known, cursor, None);
      var synced := Next(scheme, Next(scheme, broken, Fetch), Apply(when));
      var s := Run(scheme, synced, steps);
      && synced.cursor == |log|
      && |log| <= s.cursor <= |s.log|
      && s.registry.digests == synced.registry.digests + DigestsOf(s.log[|log|..s.cursor])
      && s.registry.revokedKeys == synced.registry.revokedKeys + KeysOf(s.log[|log|..s.cursor])
  {
    var broken := System(log, known, cursor, None);
    var synced := Next(scheme, Next(scheme, broken, Fetch), Apply(when));
    SyncSucceeds(scheme, known, log, cursor, when);
    assert synced.log == log && synced.cursor == |log| && synced.inFlight.None?;
    hide Applied, Next, DigestsOf, KeysOf, Run;
    assert log[|log|..|log|] == [];
    AbsorbNone(synced.registry);
    assert InStep(scheme, synced, synced.registry, |log|);
    RunInStep(scheme, synced, synced.registry, |log|, steps);
  }

  // ----- irreversibility -----

  /** Everything that changes a registry, with arbitrary and possibly hostile arguments. */
  datatype Change =
    | AddRevocation(revocation: Revocation)
    | RevokeKey(keyRevocation: KeyRevocation)
    | RestoreSaved(saved: SavedRevocations)
    | ApplyDelta(entries: seq<FeedEntry>, newest: int, when: int, since: int)
    | MarkSynced(when: int)

  function Changed(scheme: Scheme, known: Known, change: Change): Known {
    match change
    case AddRevocation(r) => if RevocationVerifies(scheme, r) then Admit(known, RevocationRecord(r)) else known
    case RevokeKey(r) => if KeyRevocationVerifies(scheme, r) then Admit(known, KeyRevocationRecord(r)) else known
    case RestoreSaved(saved) =>
      known.(digests := known.digests + saved.digests, revokedKeys := known.revokedKeys + saved.revokedKeys)
    case ApplyDelta(entries, newest, when, since) => Applied(scheme, known, entries, newest, when, since).0
    case MarkSynced(when) => known.(syncedAt := Some(when))
  }

  function ChangedBy(scheme: Scheme, known: Known, changes: seq<Change>): Known {
    if changes == [] then known
    else Changed(scheme, ChangedBy(scheme, known, changes[..|changes| - 1]), changes[|changes| - 1])
  }

  lemma ChangeOnlyGrows(scheme: Scheme, known: Known, change: Change)
    ensures known.digests <= Changed(scheme, known, change).digests
    ensures known.revokedKeys <= Changed(scheme, known, change).revokedKeys
  {
    hide RevocationVerifies, KeyRevocationVerifies, WellSequenced, VerifiedPrefix, DigestsOf, KeysOf;
  }

  lemma {:induction false} RegistryOnlyGrows(scheme: Scheme, known: Known, changes: seq<Change>)
    ensures known.digests <= ChangedBy(scheme, known, changes).digests
    ensures known.revokedKeys <= ChangedBy(scheme, known, changes).revokedKeys
  {
    hide Changed;
    if changes != [] {
      var front := changes[..|changes| - 1];
      RegistryOnlyGrows(scheme, known, front);
      ChangeOnlyGrows(scheme, ChangedBy(scheme, known, front), changes[|changes| - 1]);
    }
  }

  /** Revocation is irreversible: a chain accepted after any run of changes was accepted before it on the same terms. */
  lemma AcceptedLaterAcceptedBefore(scheme: Scheme, known: Known, changes: seq<Change>, links: seq<Delegation>,
                                    agent: string, terms: Terms)
    requires
      var after := ChangedBy(scheme, known, changes);
      Accepts(scheme, links, agent, after.digests, after.revokedKeys, terms)
    ensures Accepts(scheme, links, agent, known.digests, known.revokedKeys, terms)
  {
    hide Accepts, ChangedBy;
    var after := ChangedBy(scheme, known, changes);
    RegistryOnlyGrows(scheme, known, changes);
    RevocationOnlyRejects(scheme, links, agent, known.digests, known.revokedKeys, after.digests, after.revokedKeys,
      terms);
  }

  /** Once a grant or a key on a chain is revoked, no later run of changes and no terms make the chain acceptable. */
  lemma RevokedForever(scheme: Scheme, known: Known, changes: seq<Change>, links: seq<Delegation>, agent: string,
                       terms: Terms, link: Delegation)
    requires link in links
    requires link.issuer in known.revokedKeys || link.subject in known.revokedKeys ||
      IsRevoked(scheme, link, known.digests)
    ensures
      var after := ChangedBy(scheme, known, changes);
      !Accepts(scheme, links, agent, after.digests, after.revokedKeys, terms)
  {
    hide Accepts, ChangedBy, Digest;
    var after := ChangedBy(scheme, known, changes);
    RegistryOnlyGrows(scheme, known, changes);
    RevokedIsRejected(scheme, links, agent, after.digests, after.revokedKeys, terms, link);
  }

  /** A recall ends the agent: once the owner's key revocation is admitted, every chain through the agent is rejected,
      after any further changes and on any terms. */
  lemma RecallEndsAgent(scheme: Scheme, known: Known, r: KeyRevocation, changes: seq<Change>, links: seq<Delegation>,
                        agent: string, terms: Terms, link: Delegation)
    requires KeyRevocationVerifies(scheme, r)
    requires link in links && (link.issuer == r.address || link.subject == r.address)
    ensures
      var after := ChangedBy(scheme, Changed(scheme, known, RevokeKey(r)), changes);
      !Accepts(scheme, links, agent, after.digests, after.revokedKeys, terms)
  {
    var recalled := Changed(scheme, known, RevokeKey(r));
    assert r.address in recalled.revokedKeys;
    hide Accepts, ChangedBy, Changed, KeyRevocationVerifies;
    RevokedForever(scheme, recalled, changes, links, agent, terms, link);
  }

  /** A revocation ends the grant: once one that verifies and names a grant's digest is added, every chain holding the
      grant is rejected, after any further changes and on any terms. */
  lemma RevocationEndsGrant(scheme: Scheme, known: Known, r: Revocation, changes: seq<Change>, links: seq<Delegation>,
                            agent: string, terms: Terms, link: Delegation)
    requires SignedBy(scheme, r.issuer, "revocation", RevocationPayload(scheme, r), r.signature)
    requires link in links && Digest(scheme, link) == Some(r.delegationDigest)
    ensures
      var after := ChangedBy(scheme, Changed(scheme, known, AddRevocation(r)), changes);
      !Accepts(scheme, links, agent, after.digests, after.revokedKeys, terms)
  {
    RevocationMeans(scheme, r);
    var revoked := Changed(scheme, known, AddRevocation(r));
    assert r.delegationDigest in revoked.digests;
    hide Accepts, ChangedBy, Changed, Digest, RevocationVerifies, SignedBy;
    RegistryOnlyGrows(scheme, revoked, changes);
    var after := ChangedBy(scheme, revoked, changes);
    RevokedDigestIsRejected(scheme, links, agent, after.digests, after.revokedKeys, terms, link);
  }

  /** The change carries the record, and the record verifies. */
  ghost predicate Presents(scheme: Scheme, change: Change, record: Record) {
    && RecordVerifies(scheme, record)
    && match change
       case AddRevocation(r) => record == RevocationRecord(r)
       case RevokeKey(r) => record == KeyRevocationRecord(r)
       case ApplyDelta(entries, _, _, _) => exists i :: 0 <= i < |entries| && Revive(entries[i]) == Some(record)
       case _ => false
  }

  /** What a change adds to a registry was revoked by a verified record the change carries, or restored from a saved
      set: nothing else is ever admitted. */
  lemma OnlyVerifiedIsAdmitted(scheme: Scheme, known: Known, change: Change)
    ensures forall digest | digest in Changed(scheme, known, change).digests && digest !in known.digests ::
      || (change.RestoreSaved? && digest in change.saved.digests)
      || exists r :: Presents(scheme, change, RevocationRecord(r)) && r.delegationDigest == digest
    ensures forall key | key in Changed(scheme, known, change).revokedKeys && key !in known.revokedKeys ::
      || (change.RestoreSaved? && key in change.saved.revokedKeys)
      || exists r :: Presents(scheme, change, KeyRevocationRecord(r)) && r.address == key
  {
    hide RevocationVerifies, KeyRevocationVerifies, WellSequenced;
    match change
    case AddRevocation(r) =>
      assert RevocationVerifies(scheme, r) ==> Presents(scheme, change, RevocationRecord(r));
    case RevokeKey(r) =>
      assert KeyRevocationVerifies(scheme, r) ==> Presents(scheme, change, KeyRevocationRecord(r));
    case ApplyDelta(entries, _, _, _) =>
      DeltaAdmitsVerified(scheme, known, change);
    case _ =>
  }

  lemma DeltaGains(scheme: Scheme, known: Known, change: Change)
    requires change.ApplyDelta?
    ensures
      var after := Changed(scheme, known, change);
      exists n: nat | n <= |change.entries| ::
        && after.digests <= known.digests + DigestsOf(change.entries[..n])
        && after.revokedKeys <= known.revokedKeys + KeysOf(change.entries[..n])
        && forall i | 0 <= i < n :: EntryVerifies(scheme, change.entries[i])
  {
    hide EntryVerifies, WellSequenced, DigestsOf, KeysOf;
    var entries := change.entries;
    DeltaFailsSafely(scheme, known, entries, change.newest, change.when, change.since);
    if Applied(scheme, known, entries, change.newest, change.when, change.since).1.Some? {
      assert entries[..|entries|] == entries;
    }
  }

  lemma DigestsAreOf(entries: seq<FeedEntry>, n: nat, digest: string) returns (i: nat)
    requires n <= |entries| && digest in DigestsOf(entries[..n])
    ensures i < n && Revive(entries[i]).Some? && Revive(entries[i]).value.RevocationRecord?
    ensures Revive(entries[i]).value.revocation.delegationDigest == digest
  {
    hide Revive;
    var e :| e in entries[..n] && Revive(e).Some? && Revive(e).value.RevocationRecord? &&
      Revive(e).value.revocation.delegationDigest == digest;
    i :| 0 <= i < n && entries[i] == e;
  }

  lemma KeysAreOf(entries: seq<FeedEntry>, n: nat, key: string) returns (i: nat)
    requires n <= |entries| && key in KeysOf(entries[..n])
    ensures i < n && Revive(entries[i]).Some? && Revive(entries[i]).value.KeyRevocationRecord?
    ensures Revive(entries[i]).value.keyRevocation.address == key
  {
    hide Revive;
    var e :| e in entries[..n] && Revive(e).Some? && Revive(e).value.KeyRevocationRecord? &&
      Revive(e).value.keyRevocation.address == key;
    i :| 0 <= i < n && entries[i] == e;
  }

  lemma DeltaAdmitsVerified(scheme: Scheme, known: Known, change: Change)
    requires change.ApplyDelta?
    ensures forall digest | digest in Changed(scheme, known, change).digests && digest !in known.digests ::
      exists r :: Presents(scheme, change, RevocationRecord(r)) && r.delegationDigest == digest
    ensures forall key | key in Changed(scheme, known, change).revokedKeys && key !in known.revokedKeys ::
      exists r :: Presents(scheme, change, KeyRevocationRecord(r)) && r.address == key
  {
    hide RecordVerifies, Changed, DigestsOf, KeysOf, Revive;
    DeltaGains(scheme, known, change);
    var entries, after := change.entries, Changed(scheme, known, change);
    var n: nat :| n <= |entries|
      && after.digests <= known.digests + DigestsOf(entries[..n])
      && after.revokedKeys <= known.revokedKeys + KeysOf(entries[..n])
      && forall i | 0 <= i < n :: EntryVerifies(scheme, entries[i]);
    forall digest | digest in after.digests && digest !in known.digests
      ensures exists r :: Presents(scheme, change, RevocationRecord(r)) && r.delegationDigest == digest
    {
      var i := DigestsAreOf(entries, n, digest);
      assert Presents(scheme, change, RevocationRecord(Revive(entries[i]).value.revocation));
    }
    forall key | key in after.revokedKeys && key !in known.revokedKeys
      ensures exists r :: Presents(scheme, change, KeyRevocationRecord(r)) && r.address == key
    {
      var i := KeysAreOf(entries, n, key);
      assert Presents(scheme, change, KeyRevocationRecord(Revive(entries[i]).value.keyRevocation));
    }
  }
}
