/** A verifier's view of every identity's history, learned from chains in any order. */
module RotationRegistry {
  import opened Wrappers
  import opened CanonicalJson
  import opened Signing
  import opened Crypto
  import opened Rotation

  /** Evidence is a rotation or, at sequence 0, an inception. */
  datatype Record = InceptionRecord(inception: Inception) | RotationRecord(rotation: KeyRotation)

  datatype Registry = Registry(
    states: map<string, RotationState>,
    seen: map<(string, int), string>,
    duplicity: map<string, seq<Record>>)

  const EMPTY := Registry(map[], map[], map[])

  function Last(chain: RotationChain): nat {
    |chain.rotations|
  }

  function Identity(chain: RotationChain): string {
    chain.inception.address
  }

  function RecordAt(chain: RotationChain, k: nat): Record
    requires k <= Last(chain)
  {
    if k == 0 then InceptionRecord(chain.inception) else RotationRecord(chain.rotations[k - 1])
  }

  function ContextOf(record: Record): string {
    if record.InceptionRecord? then CONTEXT_INCEPTION else CONTEXT_KEY_ROTATION
  }

  function PayloadOf(scheme: Scheme, record: Record): Json {
    match record
    case InceptionRecord(inception) => InceptionPayload(scheme, inception)
    case RotationRecord(rotation) => RotationPayload(scheme, rotation)
  }

  /** A digest of everything the record asserts. */
  function Fingerprint(scheme: Scheme, record: Record): string {
    ContextAccepted(ContextOf(record));
    scheme.digest(Input(ContextOf(record), PayloadOf(scheme, record)))
  }

  /** The fingerprint of every step, genesis included. */
  function Fingerprints(scheme: Scheme, chain: RotationChain): (steps: seq<string>)
    ensures |steps| == Last(chain) + 1
  {
    seq(Last(chain) + 1, k requires 0 <= k <= Last(chain) => Fingerprint(scheme, RecordAt(chain, k)))
  }

  /** A different fingerprint is already established at step k. */
  predicate Conflicts(seen: map<(string, int), string>, identity: string, steps: seq<string>, k: nat)
    requires k < |steps|
  {
    (identity, k) in seen && seen[(identity, k)] != steps[k]
  }

  /** The least conflicting step at or after k. */
  function FirstConflict(seen: map<(string, int), string>, identity: string, steps: seq<string>,
                         k: nat): (first: Option<nat>)
    requires k <= |steps|
    ensures first.None? ==> forall j: nat | k <= j < |steps| :: !Conflicts(seen, identity, steps, j)
    ensures first.Some? ==> k <= first.value < |steps| && Conflicts(seen, identity, steps, first.value)
    ensures first.Some? ==> forall j: nat | k <= j < first.value :: !Conflicts(seen, identity, steps, j)
    decreases |steps| - k
  {
    if k == |steps| then None
    else if Conflicts(seen, identity, steps, k) then Some(k)
    else FirstConflict(seen, identity, steps, k + 1)
  }

  function Evidence(duplicity: map<string, seq<Record>>, identity: string): seq<Record> {
    if identity in duplicity then duplicity[identity] else []
  }

  function AddEvidence(duplicity: map<string, seq<Record>>, identity: string,
                       record: Record): map<string, seq<Record>>
  {
    var evidence := Evidence(duplicity, identity);
    duplicity[identity := if record in evidence then evidence else evidence + [record]]
  }

  function Written(identity: string, steps: seq<string>): map<(string, int), string> {
    map k: int | 0 <= k < |steps| :: (identity, k) := steps[k]
  }

  /** One atomic `learn`; None stands for a raised error. */
  function Learned(scheme: Scheme, reg: Registry, chain: RotationChain): (Registry, Option<RotationState>) {
    if !Authentic(scheme, chain) then (reg, None)
    else
      var identity, steps := Identity(chain), Fingerprints(scheme, chain);
      match FirstConflict(reg.seen, identity, steps, 0)
      case Some(k) => (reg.(duplicity := AddEvidence(reg.duplicity, identity, RecordAt(chain, k))), None)
      case None => (Adopt(reg.(seen := reg.seen + Written(identity, steps)), identity, Head(chain)),
                    Some(Ahead(reg.states, identity, Head(chain))))
  }

  /** The state kept for the identity: the new one only if it is further along. */
  function Ahead(states: map<string, RotationState>, identity: string, state: RotationState): RotationState {
    if identity !in states || state.sequence > states[identity].sequence then state else states[identity]
  }

  function Adopt(reg: Registry, identity: string, state: RotationState): Registry {
    reg.(states := reg.states[identity := Ahead(reg.states, identity, state)])
  }

  lemma LearnAccepts(scheme: Scheme, reg: Registry, chain: RotationChain)
    requires Authentic(scheme, chain)
    requires FirstConflict(reg.seen, Identity(chain), Fingerprints(scheme, chain), 0).None?
    ensures Learned(scheme, reg, chain).0 == Registry(
      reg.states[Identity(chain) := Ahead(reg.states, Identity(chain), Head(chain))],
      reg.seen + Written(Identity(chain), Fingerprints(scheme, chain)),
      reg.duplicity)
    ensures Learned(scheme, reg, chain).1 == Some(Ahead(reg.states, Identity(chain), Head(chain)))
  {
  }

  lemma LearnRejects(scheme: Scheme, reg: Registry, chain: RotationChain)
    requires Authentic(scheme, chain)
    requires FirstConflict(reg.seen, Identity(chain), Fingerprints(scheme, chain), 0).Some?
    ensures
      var k := FirstConflict(reg.seen, Identity(chain), Fingerprints(scheme, chain), 0).value;
      Learned(scheme, reg, chain) ==
        (reg.(duplicity := AddEvidence(reg.duplicity, Identity(chain), RecordAt(chain, k))), None)
  {
    hide Authentic, RecordAt, Fingerprints;
  }

  function ResolveIn(reg: Registry, identity: string): Option<string> {
    if identity in reg.duplicity then None
    else if identity in reg.states then Some(reg.states[identity].currentAddress)
    else Some(identity)
  }

  function StateIn(reg: Registry, identity: string): Option<RotationState> {
    if identity in reg.states then Some(reg.states[identity]) else None
  }

  // ----- persistence -----

  const SNAPSHOT_VERSION := 2

  datatype SavedState = SavedState(currentAddress: string, nextCommitment: string, sequence: int)

  datatype Snapshot = Snapshot(
    version: int,
    states: map<string, SavedState>,
    seen: map<(string, int), string>,
    duplicity: set<string>)

  function SnapshotOf(reg: Registry): Snapshot {
    Snapshot(
      SNAPSHOT_VERSION,
      SavedOf(reg.states),
      reg.seen,
      reg.duplicity.Keys)
  }

  function SavedOf(states: map<string, RotationState>): map<string, SavedState> {
    map identity | identity in states ::
      SavedState(states[identity].currentAddress, states[identity].nextCommitment, states[identity].sequence)
  }

  function Revived(identity: string, saved: SavedState): RotationState {
    RotationState(identity, saved.currentAddress, saved.nextCommitment, saved.sequence)
  }

  /** The saved states are adopted where they are ahead of what is known. */
  function MergeStates(known: map<string, RotationState>, saved: map<string, SavedState>): map<string, RotationState> {
    map identity | identity in known.Keys + saved.Keys ::
      if identity in saved && (identity !in known || saved[identity].sequence > known[identity].sequence)
      then Revived(identity, saved[identity])
      else known[identity]
  }

  /** Additive: history is never unlearned. A snapshot older than version 2 carries no usable fingerprints. */
  function Restore(reg: Registry, snapshot: Snapshot): Registry {
    Registry(
      MergeStates(reg.states, snapshot.states),
      if snapshot.version >= SNAPSHOT_VERSION then reg.seen + snapshot.seen else reg.seen,
      MergeDuplicity(reg.duplicity, snapshot.duplicity))
  }

  /** Indistinguishable to a caller who does not list evidence. */
  ghost predicate Alike(a: Registry, b: Registry) {
    a.states == b.states && a.seen == b.seen && a.duplicity.Keys == b.duplicity.Keys
  }

  /** Each state is recorded under the identity it names. */
  ghost predicate Named(states: map<string, RotationState>) {
    forall identity | identity in states :: states[identity].identity == identity
  }

  lemma HeadNames(chain: RotationChain)
    ensures Head(chain).identity == Identity(chain)
  {
  }

  lemma NamedNext(states: map<string, RotationState>, identity: string, state: RotationState)
    requires Named(states) && state.identity == identity
    ensures Named(states[identity := state])
  {
  }

  function MergeDuplicity(known: map<string, seq<Record>>, flagged: set<string>): map<string, seq<Record>> {
    map identity | identity in known.Keys + flagged :: Evidence(known, identity)
  }

  lemma WrittenNone(identity: string)
    ensures Written(identity, []) == map[]
  {
  }

  lemma WrittenIs(identity: string, steps: seq<string>)
    ensures forall key :: key in Written(identity, steps) <==> key.0 == identity && 0 <= key.1 < |steps|
    ensures forall key | key in Written(identity, steps) :: Written(identity, steps)[key] == steps[key.1]
  {
  }

  lemma WrittenNext(seen: map<(string, int), string>, identity: string, steps: seq<string>, k: nat)
    requires k < |steps|
    ensures seen + Written(identity, steps[..k + 1]) ==
      (seen + Written(identity, steps[..k]))[(identity, k) := steps[k]]
  {
    hide Written;
    WrittenIs(identity, steps[..k]);
    WrittenIs(identity, steps[..k + 1]);
    var longer, shorter := Written(identity, steps[..k + 1]), Written(identity, steps[..k]);
    assert (identity, k) in longer && longer[(identity, k)] == steps[k];
    assert forall key :: key in longer <==> key in shorter || key == (identity, k);
    assert forall key | key in shorter :: longer[key] == shorter[key];
  }

  lemma MergeNone(known: map<string, RotationState>)
    ensures MergeStates(known, map[]) == known
  {
  }

  lemma RevivedNames(identity: string, saved: SavedState)
    ensures Revived(identity, saved).identity == identity && Revived(identity, saved).sequence == saved.sequence
  {
  }

  lemma MergeNext(known: map<string, RotationState>, saved: map<string, SavedState>, pending: set<string>,
                  identity: string)
    requires pending <= saved.Keys && identity in pending
    ensures
      var before, state := MergeStates(known, saved - pending), Revived(identity, saved[identity]);
      MergeStates(known, saved - (pending - {identity})) ==
        if identity !in before || state.sequence > before[identity].sequence then before[identity := state] else before
  {
    var shorter, longer := saved - pending, saved - (pending - {identity});
    assert identity !in shorter && longer == shorter[identity := saved[identity]];
  }

  // ----- the class -----

  class RotationRegistry {
    const scheme: Scheme
    var states: map<string, RotationState>
    var seen: map<(string, int), string>
    var duplicity: map<string, seq<Record>>

    function View(): Registry
      reads this
    {
      Registry(states, seen, duplicity)
    }

    ghost predicate Valid()
      reads this
    {
      Named(states)
    }

    constructor (scheme: Scheme)
      ensures Valid() && View() == EMPTY && this.scheme == scheme
    {
      this.scheme := scheme;
      states, seen, duplicity := map[], map[], map[];
    }

    /** Verification happens before the lock, so the whole call is one atomic step. */
    method Learn(chain: RotationChain) returns (result: Option<RotationState>)
      requires Valid()
      modifies this
      ensures Valid()
      ensures (View(), result) == Learned(scheme, old(View()), chain)
    {
      hide Authentic, Fingerprints, RecordAt, Head, Named, FirstConflict, AddEvidence, Written;
      ghost var known := View();
      var resolved := Resolve(scheme, chain);
      if resolved.None? {
        return None;
      }
      hide Learned;
      HeadNames(chain);
      var state, identity, steps := resolved.value, resolved.value.identity, Fingerprints(scheme, chain);
      var conflict := FindConflict(identity, steps);
      if conflict.Some? {
        LearnRejects(scheme, known, chain);
        RecordEvidence(identity, RecordAt(chain, conflict.value));
        return None;
      }
      LearnAccepts(scheme, known, chain);
      WriteSeen(identity, steps);
      result := Advance(identity, state);
    }

    /** Adopts the state only if it is further along. */
    method Advance(identity: string, state: RotationState) returns (result: Option<RotationState>)
      requires Valid() && state.identity == identity
      modifies `states
      ensures Valid()
      ensures states == old(states)[identity := Ahead(old(states), identity, state)]
      ensures result == Some(Ahead(old(states), identity, state))
    {
      hide Named;
      if identity !in states || state.sequence > states[identity].sequence {
        NamedNext(states, identity, state);
        states := states[identity := state];
        return Some(state);
      }
      assert states[identity := states[identity]] == states;
      return Some(states[identity]);
    }

    method FindConflict(identity: string, steps: seq<string>) returns (conflict: Option<nat>)
      ensures conflict == FirstConflict(seen, identity, steps, 0)
    {
      for k := 0 to |steps|
        invariant FirstConflict(seen, identity, steps, 0) == FirstConflict(seen, identity, steps, k)
      {
        if Conflicts(seen, identity, steps, k) {
          return Some(k);
        }
      }
      return None;
    }

    method WriteSeen(identity: string, steps: seq<string>)
      modifies `seen
      ensures seen == old(seen) + Written(identity, steps)
    {
      hide Written;
      WrittenNone(identity);
      assert old(seen) + map[] == old(seen);
      for k := 0 to |steps|
        invariant seen == old(seen) + Written(identity, steps[..k])
      {
        WrittenNext(old(seen), identity, steps, k);
        seen := seen[(identity, k) := steps[k]];
      }
      assert steps[..|steps|] == steps;
    }

    /** Replaying one conflicting chain does not grow the evidence. */
    method RecordEvidence(identity: string, record: Record)
      modifies this
      ensures View() == old(View()).(duplicity := AddEvidence(old(duplicity), identity, record))
    {
      var evidence := if identity in duplicity then duplicity[identity] else [];
      var found := false;
      for i := 0 to |evidence|
        invariant found <==> record in evidence[..i]
      {
        if evidence[i] == record {
          found := true;
        }
      }
      assert evidence[..|evidence|] == evidence;
      if !found {
        evidence := evidence + [record];
      }
      duplicity := duplicity[identity := evidence];
    }

    method ResolveIdentity(identity: string) returns (address: Option<string>)
      ensures address == ResolveIn(View(), identity)
    {
      if identity in duplicity {
        return None;
      }
      return Some(if identity in states then states[identity].currentAddress else identity);
    }

    /** Nothing but the evidence lists is lost: a fresh registry restored from the snapshot is like this one. */
    method TakeSnapshot() returns (snapshot: Snapshot)
      requires Valid()
      ensures Alike(Restore(EMPTY, snapshot), View())
      ensures snapshot == SnapshotOf(View())
    {
      snapshot := Snapshot(
        SNAPSHOT_VERSION,
        map identity | identity in states ::
          SavedState(states[identity].currentAddress, states[identity].nextCommitment, states[identity].sequence),
        seen,
        duplicity.Keys);
    }

    method RestoreFrom(snapshot: Snapshot)
      requires Valid()
      modifies this
      ensures Valid()
      ensures View() == Restore(old(View()), snapshot)
    {
      RestoreStates(snapshot.states);
      if snapshot.version >= SNAPSHOT_VERSION {
        seen := seen + snapshot.seen;
      }
      RestoreDuplicity(snapshot.duplicity);
    }

    method RestoreStates(saved: map<string, SavedState>)
      requires Valid()
      modifies `states
      ensures Valid()
      ensures states == MergeStates(old(states), saved)
    {
      hide Named, MergeStates, Revived;
      var pending := saved.Keys;
      MergeNone(states);
      assert saved - pending == map[];
      while pending != {}
        invariant pending <= saved.Keys && Valid()
        invariant states == MergeStates(old(states), saved - pending)
      {
        var identity :| identity in pending;
        var state := Revived(identity, saved[identity]);
        MergeNext(old(states), saved, pending, identity);
        RevivedNames(identity, saved[identity]);
        NamedNext(states, identity, state);
        if identity !in states || state.sequence > states[identity].sequence {
          states := states[identity := state];
        }
        pending := pending - {identity};
      }
      assert saved - {} == saved;
    }

    method RestoreDuplicity(identities: set<string>)
      modifies `duplicity
      ensures duplicity == MergeDuplicity(old(duplicity), identities)
    {
      var pending := identities;
      while pending != {}
        invariant pending <= identities
        invariant duplicity == MergeDuplicity(old(duplicity), identities - pending)
      {
        var identity :| identity in pending;
        if identity !in duplicity {
          duplicity := duplicity[identity := []];
        }
        pending := pending - {identity};
      }
      assert identities - {} == identities;
    }
  }
}
