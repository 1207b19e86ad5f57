/** Snapshots: what a restored registry answers, after any interleaving of learning and restoring. */
module RegistryPersistence {
  import opened Wrappers
  import opened Crypto
  import opened Rotation
  import opened RotationRegistry
  import opened RegistryHistory

  datatype Call =
    | LearnCall(chain: RotationChain)
    | ResolveCall(identity: string)
    | StateCall(identity: string)
    | IsDuplicitousCall(identity: string)

  datatype Answer =
    | StateAnswer(state: Option<RotationState>)
    | AddressAnswer(address: Option<string>)
    | FlagAnswer(flag: bool)

  function Respond(scheme: Scheme, reg: Registry, call: Call): (Registry, Answer) {
    match call
    case LearnCall(chain) =>
      var (after, state) := Learned(scheme, reg, chain);
      (after, StateAnswer(state))
    case ResolveCall(identity) => (reg, AddressAnswer(ResolveIn(reg, identity)))
    case StateCall(identity) => (reg, StateAnswer(StateIn(reg, identity)))
    case IsDuplicitousCall(identity) => (reg, FlagAnswer(identity in reg.duplicity))
  }

  function Answers(scheme: Scheme, reg: Registry, calls: seq<Call>): seq<Answer>
    decreases |calls|
  {
    if calls == [] then []
    else
      [Respond(scheme, reg, calls[0]).1] + Answers(scheme, Respond(scheme, reg, calls[0]).0, calls[1..])
  }

  lemma AlikeStep(scheme: Scheme, a: Registry, b: Registry, call: Call)
    requires Alike(a, b)
    ensures Alike(Respond(scheme, a, call).0, Respond(scheme, b, call).0)
    ensures Respond(scheme, a, call).1 == Respond(scheme, b, call).1
  {
    hide Authentic, Fingerprints, FirstConflict, RecordAt, Head, Written;
  }

  /** Registries that are alike answer every later sequence of calls alike. */
  lemma {:induction false} AlikeForever(scheme: Scheme, a: Registry, b: Registry, calls: seq<Call>)
    requires Alike(a, b)
    ensures Answers(scheme, a, calls) == Answers(scheme, b, calls)
    decreases |calls|
  {
    hide Respond, Alike;
    if calls != [] {
      AlikeStep(scheme, a, b, calls[0]);
      AlikeForever(scheme, Respond(scheme, a, calls[0]).0, Respond(scheme, b, calls[0]).0, calls[1..]);
    }
  }

  lemma RestoreFresh(reg: Registry)
    requires Named(reg.states)
    ensures Alike(Restore(EMPTY, SnapshotOf(reg)), reg)
  {
    hide Evidence;
    var restored := Restore(EMPTY, SnapshotOf(reg));
    assert restored.states.Keys == reg.states.Keys;
    assert forall identity | identity in reg.states :: restored.states[identity] == reg.states[identity];
  }

  /** Restoring one's own snapshot into a fresh registry loses nothing but the evidence lists. */
  lemma RestoreIsFaithful(scheme: Scheme, trace: seq<RotationChain>, calls: seq<Call>)
    ensures
      var reg := Run(scheme, trace);
      Answers(scheme, Restore(EMPTY, SnapshotOf(reg)), calls) == Answers(scheme, reg, calls)
  {
    hide Run, Answers, Alike, Restore, SnapshotOf;
    var reg := Run(scheme, trace);
    forall identity | identity in reg.states
      ensures reg.states[identity].identity == identity
    {
      StateNamesIdentity(scheme, trace, identity);
    }
    RestoreFresh(reg);
    AlikeForever(scheme, Restore(EMPTY, SnapshotOf(reg)), reg, calls);
  }

  lemma StateNamesIdentity(scheme: Scheme, trace: seq<RotationChain>, identity: string)
    requires identity in Run(scheme, trace).states
    ensures Run(scheme, trace).states[identity].identity == identity
  {
    hide Run, Fingerprints, SeenAs, EvidenceHolds, Authentic;
    InvariantOfRun(scheme, trace, identity);
    var l :| Adopted(scheme, trace, Run(scheme, trace), identity, l);
  }

  /** The fingerprints two registries share agree. */
  ghost predicate SeenCompatible(a: Registry, b: Registry) {
    forall key | key in a.seen && key in b.seen :: a.seen[key] == b.seen[key]
  }

  lemma LearnKeepsSeen(scheme: Scheme, reg: Registry, chain: RotationChain)
    ensures
      var after := Learned(scheme, reg, chain).0;
      forall key | key in reg.seen :: key in after.seen && after.seen[key] == reg.seen[key]
  {
    hide Authentic, Fingerprints, RecordAt, Head;
    var after, steps := Learned(scheme, reg, chain).0, Fingerprints(scheme, chain);
    forall key | key in reg.seen
      ensures key in after.seen && after.seen[key] == reg.seen[key]
    {
      if after.seen != reg.seen && key in Written(Identity(chain), steps) {
        assert !Conflicts(reg.seen, Identity(chain), steps, key.1);
      }
    }
  }

  lemma RestoreEmpty(reg: Registry)
    ensures Alike(Restore(reg, SnapshotOf(EMPTY)), reg)
  {
    assert MergeStates(reg.states, map[]) == reg.states;
  }

  /** Writing the chain's steps clashes with the merged fingerprints exactly when it clashes with theirs. */
  lemma MergedConflict(seen: map<(string, int), string>, theirs: map<(string, int), string>, identity: string,
                       steps: seq<string>)
    requires FirstConflict(theirs, identity, steps, 0).None? ==>
      forall key | key in seen && key in Written(identity, steps) :: seen[key] == Written(identity, steps)[key]
    ensures FirstConflict(seen + theirs, identity, steps, 0).None? <==> FirstConflict(theirs, identity, steps, 0).None?
  {
    var alone := FirstConflict(theirs, identity, steps, 0);
    if alone.Some? {
      assert Conflicts(seen + theirs, identity, steps, alone.value);
    } else {
      WrittenSteps(identity, steps);
      forall j: nat | j < |steps|
        ensures !Conflicts(seen + theirs, identity, steps, j)
      {
        assert !Conflicts(theirs, identity, steps, j);
        assert (identity, j) in Written(identity, steps);
      }
    }
  }

  lemma MergedStates(known: map<string, RotationState>, theirs: map<string, RotationState>, identity: string,
                     state: RotationState)
    requires state.identity == identity
    ensures
      var merged := MergeStates(known, SavedOf(theirs));
      MergeStates(known, SavedOf(theirs[identity := Ahead(theirs, identity, state)])) ==
      merged[identity := Ahead(merged, identity, state)]
  {
  }

  lemma RestoreParts(mine: Registry, theirs: Registry)
    ensures
      var both := Restore(mine, SnapshotOf(theirs));
      && both.states == MergeStates(mine.states, SavedOf(theirs.states))
      && both.seen == mine.seen + theirs.seen
      && both.duplicity.Keys == mine.duplicity.Keys + theirs.duplicity.Keys
  {
    hide MergeStates, SavedOf;
  }

  lemma RejectedParts(scheme: Scheme, reg: Registry, chain: RotationChain)
    requires Authentic(scheme, chain)
    requires FirstConflict(reg.seen, Identity(chain), Fingerprints(scheme, chain), 0).Some?
    ensures
      var after := Learned(scheme, reg, chain).0;
      && after.states == reg.states && after.seen == reg.seen
      && after.duplicity.Keys == reg.duplicity.Keys + {Identity(chain)}
  {
    hide Learned, Fingerprints, Authentic, FirstConflict, Evidence;
    LearnRejects(scheme, reg, chain);
  }

  lemma MergeRejected(scheme: Scheme, mine: Registry, theirs: Registry, both: Registry, chain: RotationChain)
    requires Alike(Restore(mine, SnapshotOf(theirs)), both) && Authentic(scheme, chain)
    requires FirstConflict(theirs.seen, Identity(chain), Fingerprints(scheme, chain), 0).Some?
    ensures Alike(Restore(mine, SnapshotOf(Learned(scheme, theirs, chain).0)), Learned(scheme, both, chain).0)
  {
    hide Learned, Fingerprints, Authentic, FirstConflict, Written, MergeStates, SavedOf, Restore, SnapshotOf;
    RestoreParts(mine, theirs);
    MergedConflict(mine.seen, theirs.seen, Identity(chain), Fingerprints(scheme, chain));
    RejectedParts(scheme, theirs, chain);
    RejectedParts(scheme, both, chain);
    RestoreParts(mine, Learned(scheme, theirs, chain).0);
  }

  lemma MergeAccepted(scheme: Scheme, mine: Registry, theirs: Registry, both: Registry, chain: RotationChain)
    requires Alike(Restore(mine, SnapshotOf(theirs)), both) && Authentic(scheme, chain)
    requires FirstConflict(theirs.seen, Identity(chain), Fingerprints(scheme, chain), 0).None?
    requires SeenCompatible(mine, Learned(scheme, theirs, chain).0)
    ensures Alike(Restore(mine, SnapshotOf(Learned(scheme, theirs, chain).0)), Learned(scheme, both, chain).0)
  {
    var steps, identity, state := Fingerprints(scheme, chain), Identity(chain), Head(chain);
    LearnAccepts(scheme, theirs, chain);
    HeadSequence(chain);
    hide Learned, Fingerprints, Authentic, Head;
    MergedStates(mine.states, theirs.states, identity, state);
    ConflictFreeMerge(mine.seen, theirs.seen, identity, steps);
    LearnAccepts(scheme, both, chain);
    hide FirstConflict, Written, MergeStates, SavedOf, Ahead;
  }

  lemma ConflictFreeMerge(seen: map<(string, int), string>, theirs: map<(string, int), string>, identity: string,
                          steps: seq<string>)
    requires FirstConflict(theirs, identity, steps, 0).None?
    requires forall key | key in seen && key in theirs + Written(identity, steps) ::
      seen[key] == (theirs + Written(identity, steps))[key]
    ensures FirstConflict(seen + theirs, identity, steps, 0).None?
    ensures (seen + theirs) + Written(identity, steps) == seen + (theirs + Written(identity, steps))
  {
    hide Written;
    MergedConflict(seen, theirs, identity, steps);
  }

  /** Learning one more chain and restoring commute. */
  lemma MergeStep(scheme: Scheme, mine: Registry, theirs: Registry, both: Registry, chain: RotationChain)
    requires Alike(Restore(mine, SnapshotOf(theirs)), both)
    requires SeenCompatible(mine, Learned(scheme, theirs, chain).0)
    ensures Alike(Restore(mine, SnapshotOf(Learned(scheme, theirs, chain).0)), Learned(scheme, both, chain).0)
  {
    hide Fingerprints, Authentic, FirstConflict, Restore, SnapshotOf, Alike;
    if Authentic(scheme, chain) {
      if FirstConflict(theirs.seen, Identity(chain), Fingerprints(scheme, chain), 0).Some? {
        MergeRejected(scheme, mine, theirs, both, chain);
      } else {
        MergeAccepted(scheme, mine, theirs, both, chain);
      }
    }
  }

  /** Restoring a snapshot is, to any later caller, the same as having learned that registry's chains as well. */
  lemma {:induction false} RestoreIsMerge(scheme: Scheme, mine: seq<RotationChain>, theirs: seq<RotationChain>)
    requires SeenCompatible(Run(scheme, mine), Run(scheme, theirs))
    ensures Alike(Restore(Run(scheme, mine), SnapshotOf(Run(scheme, theirs))), Run(scheme, mine + theirs))
    decreases |theirs|
  {
    if theirs == [] {
      assert mine + theirs == mine;
      RestoreEmpty(Run(scheme, mine));
    } else {
      var front, chain := theirs[..|theirs| - 1], theirs[|theirs| - 1];
      assert (mine + theirs)[..|mine + theirs| - 1] == mine + front;
      assert (mine + theirs)[|mine + theirs| - 1] == chain;
      LearnKeepsSeen(scheme, Run(scheme, front), chain);
      RestoreIsMerge(scheme, mine, front);
      hide Learned, Restore, SnapshotOf, Alike;
      MergeStep(scheme, Run(scheme, mine), Run(scheme, front), Run(scheme, mine + front), chain);
    }
  }

  // ----- any interleaving of learning and restoring -----

  /** A restored snapshot is of a registry with a history of its own. */
  datatype Event = LearnEvent(chain: RotationChain) | RestoreEvent(saved: seq<Event>)

  function History(scheme: Scheme, events: seq<Event>): Registry
    decreases events
  {
    if events == [] then EMPTY
    else
      var before := History(scheme, events[..|events| - 1]);
      match events[|events| - 1]
      case LearnEvent(chain) => Learned(scheme, before, chain).0
      case RestoreEvent(saved) => Restore(before, SnapshotOf(History(scheme, saved)))
  }

  /** Each snapshot agrees with the registry that restores it on the fingerprints they share. */
  ghost predicate RestoresAgree(scheme: Scheme, events: seq<Event>)
    decreases events
  {
    events == [] ||
    (var front := events[..|events| - 1];
     && RestoresAgree(scheme, front)
     && match events[|events| - 1]
        case LearnEvent(_) => true
        case RestoreEvent(saved) =>
          RestoresAgree(scheme, saved) && SeenCompatible(History(scheme, front), History(scheme, saved)))
  }

  /** The chains learned, directly or by way of a snapshot. */
  function ChainsOf(events: seq<Event>): seq<RotationChain>
    decreases events
  {
    if events == [] then []
    else
      ChainsOf(events[..|events| - 1]) +
      match events[|events| - 1]
      case LearnEvent(chain) => [chain]
      case RestoreEvent(saved) => ChainsOf(saved)
  }

  lemma AlikeRestore(a: Registry, b: Registry, c: Registry, d: Registry)
    requires Alike(a, b) && Alike(c, d)
    ensures Alike(Restore(a, SnapshotOf(c)), Restore(b, SnapshotOf(d)))
  {
  }

  lemma AlikeLearn(scheme: Scheme, a: Registry, b: Registry, chain: RotationChain)
    requires Alike(a, b)
    ensures Alike(Learned(scheme, a, chain).0, Learned(scheme, b, chain).0)
  {
    hide Learned, Alike;
    AlikeStep(scheme, a, b, LearnCall(chain));
  }

  lemma AlikeTransitive(a: Registry, b: Registry, c: Registry)
    requires Alike(a, b) && Alike(b, c)
    ensures Alike(a, c)
  {
  }

  lemma SeenCompatibleAlike(a: Registry, b: Registry, c: Registry, d: Registry)
    requires SeenCompatible(a, c) && Alike(a, b) && Alike(c, d)
    ensures SeenCompatible(b, d)
  {
  }

  /** After any interleaving of learning and of restoring agreeing snapshots, a registry is, evidence lists aside, the
      one that learned all the chains involved. */
  lemma {:induction false} HistoryIsRun(scheme: Scheme, events: seq<Event>)
    requires RestoresAgree(scheme, events)
    ensures Alike(History(scheme, events), Run(scheme, ChainsOf(events)))
    decreases events
  {
    if events != [] {
      var front := events[..|events| - 1];
      HistoryIsRun(scheme, front);
      var reg, chains := History(scheme, front), ChainsOf(front);
      match events[|events| - 1]
      case LearnEvent(chain) =>
        hide Learned, Alike, Run;
        AlikeLearn(scheme, reg, Run(scheme, chains), chain);
        RunNext(scheme, chains, chain);
      case RestoreEvent(saved) =>
        HistoryIsRun(scheme, saved);
        hide Restore, SnapshotOf, Alike, Run, SeenCompatible;
        var theirs := Run(scheme, ChainsOf(saved));
        SeenCompatibleAlike(reg, Run(scheme, chains), History(scheme, saved), theirs);
        AlikeRestore(reg, Run(scheme, chains), History(scheme, saved), theirs);
        RestoreIsMerge(scheme, chains, ChainsOf(saved));
        var between := Restore(Run(scheme, chains), SnapshotOf(theirs));
        AlikeTransitive(History(scheme, events), between, Run(scheme, chains + ChainsOf(saved)));
    }
  }

  /** So every later sequence of calls is answered as if all those chains had been learned. */
  lemma HistoryAnswers(scheme: Scheme, events: seq<Event>, calls: seq<Call>)
    requires RestoresAgree(scheme, events)
    ensures Answers(scheme, History(scheme, events), calls) == Answers(scheme, Run(scheme, ChainsOf(events)), calls)
  {
    HistoryIsRun(scheme, events);
    AlikeForever(scheme, History(scheme, events), Run(scheme, ChainsOf(events)), calls);
  }

  /** The verdict on an identity is that of the chains involved, learned or restored: refused exactly when two of them
      differ at a step, else the identity itself, or the current address of a longest one. */
  lemma HistoryVerdict(scheme: Scheme, events: seq<Event>, identity: string)
    requires RestoresAgree(scheme, events)
    ensures
      var answer, chains := ResolveIn(History(scheme, events), identity), ChainsOf(events);
      && (answer.None? <==> Forked(scheme, chains, identity))
      && ((forall c :: !Presented(scheme, chains, identity, c)) ==> answer == Some(identity))
      && (answer.Some? && (exists c :: Presented(scheme, chains, identity, c)) ==>
            exists l :: Longest(scheme, chains, identity, l) && answer == Some(Head(l).currentAddress))
  {
    HistoryIsRun(scheme, events);
    VerdictOfRun(scheme, ChainsOf(events), identity);
    hide History, Run, Forked, Longest, Presented, ChainsOf, Head;
    AlikeResolve(History(scheme, events), Run(scheme, ChainsOf(events)), identity);
  }

  lemma AlikeResolve(a: Registry, b: Registry, identity: string)
    requires Alike(a, b)
    ensures ResolveIn(a, identity) == ResolveIn(b, identity)
  {
  }

  lemma OldRestore(reg: Registry, snapshot: Snapshot)
    requires snapshot.version < 2
    ensures
      var restored := Restore(reg, snapshot);
      && restored.seen == reg.seen
      && restored.duplicity.Keys == reg.duplicity.Keys + snapshot.duplicity
      && (forall identity | identity in reg.duplicity :: restored.duplicity[identity] == reg.duplicity[identity])
      && restored.states == MergeStates(reg.states, snapshot.states)
  {
    hide MergeStates;
  }

  lemma MergedStatesAreAhead(known: map<string, RotationState>, saved: map<string, SavedState>)
    ensures
      var merged := MergeStates(known, saved);
      && merged.Keys == known.Keys + saved.Keys
      && (forall identity | identity in known :: merged[identity].sequence >= known[identity].sequence)
      && forall identity | identity in saved :: merged[identity].sequence >= saved[identity].sequence
  {
  }

  lemma SeenDecidesLearning(scheme: Scheme, a: Registry, b: Registry, chain: RotationChain)
    requires a.seen == b.seen
    ensures Learned(scheme, a, chain).1.Some? <==> Learned(scheme, b, chain).1.Some?
    ensures Learned(scheme, a, chain).0.seen == Learned(scheme, b, chain).0.seen
  {
    hide Authentic, Fingerprints, FirstConflict, RecordAt, Head, Written, AddEvidence, Ahead;
  }

  /** A snapshot older than version 2 brings no fingerprints, so it makes no honest chain look like a conflict: what
      `learn` says of any chain is what it would have said, while every recorded flag is kept and every state is at
      least as far along. */
  lemma OldSnapshotKeepsLearning(scheme: Scheme, reg: Registry, snapshot: Snapshot, chain: RotationChain)
    requires snapshot.version < 2
    ensures
      var restored := Restore(reg, snapshot);
      && restored.seen == reg.seen
      && restored.duplicity.Keys == reg.duplicity.Keys + snapshot.duplicity
      && (forall identity | identity in reg.duplicity :: restored.duplicity[identity] == reg.duplicity[identity])
      && restored.states.Keys == reg.states.Keys + snapshot.states.Keys
      && (forall identity | identity in reg.states ::
            restored.states[identity].sequence >= reg.states[identity].sequence)
      && (forall identity | identity in snapshot.states ::
            restored.states[identity].sequence >= snapshot.states[identity].sequence)
      && (Learned(scheme, restored, chain).1.Some? <==> Learned(scheme, reg, chain).1.Some?)
      && Learned(scheme, restored, chain).0.seen == Learned(scheme, reg, chain).0.seen
  {
    hide Learned, Restore, MergeStates;
    OldRestore(reg, snapshot);
    MergedStatesAreAhead(reg.states, snapshot.states);
    SeenDecidesLearning(scheme, Restore(reg, snapshot), reg, chain);
  }
}
