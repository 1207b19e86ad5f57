/** What a registry answers after any sequence of `learn` calls, as a function of the chains presented. */
module RegistryHistory {
  import opened Wrappers
  import opened CanonicalJson
  import opened Signing
  import opened Crypto
  import opened Rotation
  import opened RotationRegistry

  /** The registry after learning the chains in order, from empty. */
  function Run(scheme: Scheme, trace: seq<RotationChain>): Registry {
    if trace == [] then EMPTY
    else Learned(scheme, Run(scheme, trace[..|trace| - 1]), trace[|trace| - 1]).0
  }

  ghost predicate Presented(scheme: Scheme, trace: seq<RotationChain>, identity: string, c: RotationChain) {
    c in trace && Authentic(scheme, c) && Identity(c) == identity
  }

  ghost predicate Clash(g: seq<string>, h: seq<string>, k: nat) {
    k < |g| && k < |h| && g[k] != h[k]
  }

  /** The two chains have different fingerprints at step k. */
  ghost predicate DifferAt(scheme: Scheme, a: RotationChain, b: RotationChain, k: nat) {
    Clash(Fingerprints(scheme, a), Fingerprints(scheme, b), k)
  }

  ghost predicate Agree(g: seq<string>, h: seq<string>) {
    forall k: nat :: !Clash(g, h, k)
  }

  ghost predicate Compatible(scheme: Scheme, a: RotationChain, b: RotationChain) {
    Agree(Fingerprints(scheme, a), Fingerprints(scheme, b))
  }

  /** The fingerprints recorded for the identity are exactly the given steps. */
  ghost predicate SeenAs(seen: map<(string, int), string>, identity: string, steps: seq<string>) {
    && (forall k: int :: (identity, k) in seen <==> 0 <= k < |steps|)
    && (forall k: int | 0 <= k < |steps| :: seen[(identity, k)] == steps[k])
  }

  /** What the registry knows of an identity is exactly the history l. */
  ghost predicate Holds(scheme: Scheme, reg: Registry, identity: string, l: RotationChain) {
    && identity in reg.states && reg.states[identity] == Head(l)
    && SeenAs(reg.seen, identity, Fingerprints(scheme, l))
  }

  ghost predicate Unknown(reg: Registry, identity: string) {
    && identity !in reg.states
    && identity !in reg.duplicity
    && forall k: int :: (identity, k) !in reg.seen
  }

  /** Record e is step k of a presented chain that first departs from the registry's history there. */
  ghost predicate Departs(scheme: Scheme, trace: seq<RotationChain>, reg: Registry, identity: string, e: Record,
                          c: RotationChain, k: nat)
  {
    && Presented(scheme, trace, identity, c)
    && k <= Last(c) && e == RecordAt(c, k)
    && ParentsAgree(reg.seen, identity, Fingerprints(scheme, c), k)
  }

  /** Step k clashes with what is recorded, and every step before it is recorded as it stands. */
  ghost predicate ParentsAgree(seen: map<(string, int), string>, identity: string, steps: seq<string>, k: nat) {
    && k < |steps|
    && Conflicts(seen, identity, steps, k)
    && forall j: int | 0 <= j < k :: (identity, j) in seen && seen[(identity, j)] == steps[j]
  }

  ghost predicate EvidenceHolds(scheme: Scheme, trace: seq<RotationChain>, reg: Registry, identity: string) {
    identity in reg.duplicity ==>
      && reg.duplicity[identity] != []
      && (forall i, j | 0 <= i < j < |reg.duplicity[identity]| ::
            reg.duplicity[identity][i] != reg.duplicity[identity][j])
      && forall e | e in reg.duplicity[identity] :: exists c, k :: Departs(scheme, trace, reg, identity, e, c, k)
  }

  /** l is the longest accepted history, and unless duplicity is known every presented chain agrees with it. */
  ghost predicate Adopted(scheme: Scheme, trace: seq<RotationChain>, reg: Registry, identity: string, l: RotationChain)
  {
    && Presented(scheme, trace, identity, l)
    && Holds(scheme, reg, identity, l)
    && (identity !in reg.duplicity ==>
          forall c | Presented(scheme, trace, identity, c) :: Last(c) <= Last(l) && Compatible(scheme, c, l))
  }

  ghost predicate Invariant(scheme: Scheme, trace: seq<RotationChain>, reg: Registry, identity: string) {
    && EvidenceHolds(scheme, trace, reg, identity)
    && (Unknown(reg, identity) ==> forall c :: !Presented(scheme, trace, identity, c))
    && (Unknown(reg, identity) || exists l :: Adopted(scheme, trace, reg, identity, l))
  }

  ghost predicate SeenKept(seen: map<(string, int), string>, after: map<(string, int), string>, identity: string) {
    forall k: int | (identity, k) in seen :: (identity, k) in after && after[(identity, k)] == seen[(identity, k)]
  }

  /** Fingerprints once recorded stay, so what the evidence shows stays shown. */
  lemma EvidenceKept(scheme: Scheme, trace: seq<RotationChain>, reg: Registry, longer: seq<RotationChain>,
                     after: Registry, identity: string)
    requires EvidenceHolds(scheme, trace, reg, identity)
    requires Evidence(after.duplicity, identity) == Evidence(reg.duplicity, identity)
    requires identity in after.duplicity <==> identity in reg.duplicity
    requires SeenKept(reg.seen, after.seen, identity)
    requires forall c | Presented(scheme, trace, identity, c) :: Presented(scheme, longer, identity, c)
    ensures EvidenceHolds(scheme, longer, after, identity)
  {
    hide Presented, Fingerprints, RecordAt;
    forall e | identity in reg.duplicity && e in reg.duplicity[identity]
      ensures exists c, k :: Departs(scheme, longer, after, identity, e, c, k)
    {
      var c, k :| Departs(scheme, trace, reg, identity, e, c, k);
      assert Departs(scheme, longer, after, identity, e, c, k);
    }
  }

  lemma LearnFrame(scheme: Scheme, reg: Registry, chain: RotationChain, identity: string)
    requires !Authentic(scheme, chain) || Identity(chain) != identity
    ensures
      var after := Learned(scheme, reg, chain).0;
      && (identity in after.states <==> identity in reg.states)
      && (identity in reg.states ==> after.states[identity] == reg.states[identity])
      && (identity in after.duplicity <==> identity in reg.duplicity)
      && (identity in reg.duplicity ==> after.duplicity[identity] == reg.duplicity[identity])
      && (forall k: int :: (identity, k) in after.seen <==> (identity, k) in reg.seen)
      && forall k: int | (identity, k) in reg.seen :: after.seen[(identity, k)] == reg.seen[(identity, k)]
  {
    hide Authentic, Fingerprints, RecordAt, Head, FirstConflict, Ahead;
  }

  /** A chain of another identity, or an invalid one, changes nothing for this identity. */
  lemma InvariantFrame(scheme: Scheme, trace: seq<RotationChain>, reg: Registry, chain: RotationChain, identity: string)
    requires Invariant(scheme, trace, reg, identity)
    requires !Authentic(scheme, chain) || Identity(chain) != identity
    ensures Invariant(scheme, trace + [chain], Learned(scheme, reg, chain).0, identity)
  {
    hide Authentic, Fingerprints, RecordAt, Head, Learned;
    var after, longer := Learned(scheme, reg, chain).0, trace + [chain];
    LearnFrame(scheme, reg, chain, identity);
    assert forall c :: Presented(scheme, longer, identity, c) <==> Presented(scheme, trace, identity, c);
    hide Presented, Compatible;
    assert Unknown(after, identity) == Unknown(reg, identity);
    EvidenceKept(scheme, trace, reg, longer, after, identity);
    hide EvidenceHolds;
    if !Unknown(reg, identity) {
      var l :| Adopted(scheme, trace, reg, identity, l);
      assert Adopted(scheme, longer, after, identity, l);
    }
  }

  lemma PresentedNext(scheme: Scheme, trace: seq<RotationChain>, chain: RotationChain, identity: string)
    requires Authentic(scheme, chain) && Identity(chain) == identity
    ensures forall c :: Presented(scheme, trace + [chain], identity, c) <==>
      c == chain || Presented(scheme, trace, identity, c)
  {
  }

  lemma WrittenSteps(identity: string, steps: seq<string>)
    ensures SeenAs(Written(identity, steps), identity, steps)
  {
  }

  lemma NoConflictAgrees(seen: map<(string, int), string>, identity: string, prior: seq<string>, steps: seq<string>)
    requires SeenAs(seen, identity, prior) && FirstConflict(seen, identity, steps, 0).None?
    ensures Agree(steps, prior)
    ensures forall k: int | 0 <= k < |steps| && k < |prior| :: steps[k] == prior[k]
  {
    forall k: nat
      ensures !Clash(steps, prior, k)
    {
      if k < |steps| && k < |prior| {
        assert !Conflicts(seen, identity, steps, k);
      }
    }
    forall k: int | 0 <= k < |steps| && k < |prior|
      ensures steps[k] == prior[k]
    {
      assert !Clash(steps, prior, k);
    }
  }

  /** Writing steps that clash nowhere leaves the longer of the two histories. */
  lemma SeenGrows(seen: map<(string, int), string>, identity: string, prior: seq<string>, steps: seq<string>)
    requires SeenAs(seen, identity, prior) && FirstConflict(seen, identity, steps, 0).None?
    ensures Agree(steps, prior)
    ensures SeenKept(seen, seen + Written(identity, steps), identity)
    ensures SeenAs(seen + Written(identity, steps), identity, if |steps| > |prior| then steps else prior)
  {
    NoConflictAgrees(seen, identity, prior, steps);
    WrittenSteps(identity, steps);
    hide Written, FirstConflict, SeenAs, SeenKept, Agree;
    MergeSeen(seen, Written(identity, steps), identity, prior, steps);
  }

  lemma MergeSeen(seen: map<(string, int), string>, written: map<(string, int), string>, identity: string,
                  prior: seq<string>, steps: seq<string>)
    requires SeenAs(seen, identity, prior) && SeenAs(written, identity, steps)
    requires forall k: int | 0 <= k < |steps| && k < |prior| :: steps[k] == prior[k]
    ensures SeenKept(seen, seen + written, identity)
    ensures SeenAs(seen + written, identity, if |steps| > |prior| then steps else prior)
  {
  }

  /** Histories that agree with h agree with each other where h covers the first. */
  lemma AgreeThrough(g: seq<string>, steps: seq<string>, h: seq<string>)
    requires g == steps || (Agree(g, h) && |g| <= |h|)
    requires Agree(steps, h)
    ensures Agree(g, steps) && Agree(g, h)
  {
    forall k: nat
      ensures !Clash(g, steps, k) && !Clash(g, h, k)
    {
      assert !Clash(steps, h, k);
      assert g != steps ==> !Clash(g, h, k);
    }
  }

  lemma UnknownIsUnseen(reg: Registry, identity: string)
    requires Unknown(reg, identity)
    ensures SeenAs(reg.seen, identity, []) && identity !in reg.states
  {
  }

  lemma FirstChainHeld(scheme: Scheme, reg: Registry, chain: RotationChain)
    requires Authentic(scheme, chain) && Unknown(reg, Identity(chain))
    requires FirstConflict(reg.seen, Identity(chain), Fingerprints(scheme, chain), 0).None?
    ensures SeenKept(reg.seen, Learned(scheme, reg, chain).0.seen, Identity(chain))
    ensures Holds(scheme, Learned(scheme, reg, chain).0, Identity(chain), chain)
  {
    hide Learned, Authentic, Fingerprints, FirstConflict, Written, SeenAs, SeenKept, Agree, Head, Unknown;
    UnknownIsUnseen(reg, Identity(chain));
    SeenGrows(reg.seen, Identity(chain), [], Fingerprints(scheme, chain));
    LearnAccepts(scheme, reg, chain);
  }

  lemma FirstChainAdopted(scheme: Scheme, trace: seq<RotationChain>, reg: Registry, chain: RotationChain)
    requires Authentic(scheme, chain)
    requires FirstConflict(reg.seen, Identity(chain), Fingerprints(scheme, chain), 0).None?
    requires Invariant(scheme, trace, reg, Identity(chain)) && Unknown(reg, Identity(chain))
    ensures Adopted(scheme, trace + [chain], Learned(scheme, reg, chain).0, Identity(chain), chain)
  {
    FirstChainHeld(scheme, reg, chain);
    PresentedNext(scheme, trace, chain, Identity(chain));
    var steps := Fingerprints(scheme, chain);
    AgreeThrough(steps, steps, []);
    hide Learned, Presented, Authentic, Fingerprints, FirstConflict, EvidenceHolds, Holds, Agree, SeenKept;
  }

  lemma NextSeenKept(scheme: Scheme, reg: Registry, chain: RotationChain, l: RotationChain)
    requires Authentic(scheme, chain) && Holds(scheme, reg, Identity(chain), l)
    requires FirstConflict(reg.seen, Identity(chain), Fingerprints(scheme, chain), 0).None?
    ensures SeenKept(reg.seen, Learned(scheme, reg, chain).0.seen, Identity(chain))
    ensures Compatible(scheme, chain, l)
  {
    SeenGrows(reg.seen, Identity(chain), Fingerprints(scheme, l), Fingerprints(scheme, chain));
    LearnAccepts(scheme, reg, chain);
    hide Learned, Authentic, Fingerprints, FirstConflict, Written, SeenAs, SeenKept, Agree, Head, Ahead;
  }

  lemma NextChainAdopted(scheme: Scheme, trace: seq<RotationChain>, reg: Registry, chain: RotationChain,
                         l: RotationChain)
    requires Authentic(scheme, chain)
    requires FirstConflict(reg.seen, Identity(chain), Fingerprints(scheme, chain), 0).None?
    requires Adopted(scheme, trace, reg, Identity(chain), l)
    ensures SeenKept(reg.seen, Learned(scheme, reg, chain).0.seen, Identity(chain))
    ensures Adopted(scheme, trace + [chain], Learned(scheme, reg, chain).0, Identity(chain),
                    if Last(chain) > Last(l) then chain else l)
  {
    NextSeenKept(scheme, reg, chain, l);
    NextChainHeld(scheme, reg, chain, l);
    PresentedNext(scheme, trace, chain, Identity(chain));
    LearnAccepts(scheme, reg, chain);
    hide Learned, Presented, Authentic, Fingerprints, FirstConflict, Written, Compatible, Holds, SeenKept, Head, Ahead;
    var next := if Last(chain) > Last(l) then chain else l;
    if Identity(chain) !in reg.duplicity {
      CoverageKept(scheme, trace, chain, l, next);
    }
  }

  /** A presented chain that agrees with the longest history so far agrees with the next longest one. */
  lemma CoverageKept(scheme: Scheme, trace: seq<RotationChain>, chain: RotationChain, l: RotationChain,
                     next: RotationChain)
    requires Authentic(scheme, chain) && Compatible(scheme, chain, l)
    requires next == if Last(chain) > Last(l) then chain else l
    requires forall c | Presented(scheme, trace, Identity(chain), c) :: Last(c) <= Last(l) && Compatible(scheme, c, l)
    ensures forall c | Presented(scheme, trace + [chain], Identity(chain), c) ::
      Last(c) <= Last(next) && Compatible(scheme, c, next)
  {
    PresentedNext(scheme, trace, chain, Identity(chain));
    hide Presented, Authentic, Fingerprints, Agree;
    forall c | Presented(scheme, trace + [chain], Identity(chain), c)
      ensures Last(c) <= Last(next) && Compatible(scheme, c, next)
    {
      AgreeThrough(Fingerprints(scheme, c), Fingerprints(scheme, chain), Fingerprints(scheme, l));
    }
  }

  lemma AheadIs(states: map<string, RotationState>, identity: string, state: RotationState)
    ensures identity in states ==>
      Ahead(states, identity, state) == if state.sequence > states[identity].sequence then state else states[identity]
  {
  }

  lemma NextChainHeld(scheme: Scheme, reg: Registry, chain: RotationChain, l: RotationChain)
    requires Authentic(scheme, chain) && Holds(scheme, reg, Identity(chain), l)
    requires FirstConflict(reg.seen, Identity(chain), Fingerprints(scheme, chain), 0).None?
    ensures Holds(scheme, Learned(scheme, reg, chain).0, Identity(chain), if Last(chain) > Last(l) then chain else l)
  {
    hide Learned, Authentic, Fingerprints, FirstConflict, Written, SeenAs, SeenKept, Agree, Head, Ahead;
    SeenGrows(reg.seen, Identity(chain), Fingerprints(scheme, l), Fingerprints(scheme, chain));
    LearnAccepts(scheme, reg, chain);
    HeadSequence(chain);
    HeadSequence(l);
    AheadIs(reg.states, Identity(chain), Head(chain));
  }

  lemma FirstInvariant(scheme: Scheme, trace: seq<RotationChain>, reg: Registry, chain: RotationChain)
    requires Invariant(scheme, trace, reg, Identity(chain)) && Unknown(reg, Identity(chain))
    requires Authentic(scheme, chain)
    requires FirstConflict(reg.seen, Identity(chain), Fingerprints(scheme, chain), 0).None?
    ensures SeenKept(reg.seen, Learned(scheme, reg, chain).0.seen, Identity(chain))
    ensures exists l :: Adopted(scheme, trace + [chain], Learned(scheme, reg, chain).0, Identity(chain), l)
  {
    hide Learned, Authentic, Fingerprints, Presented, EvidenceHolds, FirstConflict, SeenKept, Adopted, Unknown;
    FirstChainHeld(scheme, reg, chain);
    FirstChainAdopted(scheme, trace, reg, chain);
  }

  lemma NextInvariant(scheme: Scheme, trace: seq<RotationChain>, reg: Registry, chain: RotationChain)
    requires Invariant(scheme, trace, reg, Identity(chain)) && !Unknown(reg, Identity(chain))
    requires Authentic(scheme, chain)
    requires FirstConflict(reg.seen, Identity(chain), Fingerprints(scheme, chain), 0).None?
    ensures SeenKept(reg.seen, Learned(scheme, reg, chain).0.seen, Identity(chain))
    ensures exists l :: Adopted(scheme, trace + [chain], Learned(scheme, reg, chain).0, Identity(chain), l)
  {
    hide Learned, Authentic, Fingerprints, Presented, EvidenceHolds, FirstConflict, SeenKept, Adopted, Unknown;
    var l :| Adopted(scheme, trace, reg, Identity(chain), l);
    NextChainAdopted(scheme, trace, reg, chain, l);
  }

  lemma AdoptedIsKnown(scheme: Scheme, trace: seq<RotationChain>, reg: Registry, identity: string, l: RotationChain)
    requires Adopted(scheme, trace, reg, identity, l)
    ensures !Unknown(reg, identity)
  {
    hide Presented, Compatible, SeenAs;
  }

  lemma AcceptedInvariant(scheme: Scheme, trace: seq<RotationChain>, reg: Registry, chain: RotationChain)
    requires Invariant(scheme, trace, reg, Identity(chain))
    requires Authentic(scheme, chain)
    requires FirstConflict(reg.seen, Identity(chain), Fingerprints(scheme, chain), 0).None?
    ensures Invariant(scheme, trace + [chain], Learned(scheme, reg, chain).0, Identity(chain))
  {
    var identity, longer := Identity(chain), trace + [chain];
    LearnAccepts(scheme, reg, chain);
    hide Learned, Authentic, Fingerprints, FirstConflict, SeenKept, Written, Ahead, Adopted, Unknown, EvidenceHolds;
    var after := Learned(scheme, reg, chain).0;
    PresentedNext(scheme, trace, chain, identity);
    hide Presented;
    if Unknown(reg, identity) {
      FirstInvariant(scheme, trace, reg, chain);
    } else {
      NextInvariant(scheme, trace, reg, chain);
    }
    EvidenceKept(scheme, trace, reg, longer, after, identity);
    var l :| Adopted(scheme, longer, after, identity, l);
    AdoptedIsKnown(scheme, longer, after, identity, l);
  }

  lemma RejectedInvariant(scheme: Scheme, trace: seq<RotationChain>, reg: Registry, chain: RotationChain)
    requires Invariant(scheme, trace, reg, Identity(chain))
    requires Authentic(scheme, chain)
    requires FirstConflict(reg.seen, Identity(chain), Fingerprints(scheme, chain), 0).Some?
    ensures Invariant(scheme, trace + [chain], Learned(scheme, reg, chain).0, Identity(chain))
  {
    hide Fingerprints, RecordAt, Authentic, Head;
    var after, identity, longer := Learned(scheme, reg, chain).0, Identity(chain), trace + [chain];
    var steps := Fingerprints(scheme, chain);
    var k := FirstConflict(reg.seen, identity, steps, 0).value;
    assert Conflicts(reg.seen, identity, steps, k);
    PresentedNext(scheme, trace, chain, identity);
    var l :| Adopted(scheme, trace, reg, identity, l);
    assert Adopted(scheme, longer, after, identity, l);
    forall j: int | 0 <= j < k
      ensures (identity, j) in reg.seen && reg.seen[(identity, j)] == steps[j]
    {
      assert !Conflicts(reg.seen, identity, steps, j);
    }
    assert Departs(scheme, longer, after, identity, RecordAt(chain, k), chain, k);
    forall e | e in after.duplicity[identity]
      ensures exists c, j :: Departs(scheme, longer, after, identity, e, c, j)
    {
      if e != RecordAt(chain, k) {
        var c, j :| Departs(scheme, trace, reg, identity, e, c, j);
        assert Departs(scheme, longer, after, identity, e, c, j);
      }
    }
  }

  /** Every registry reached by learning holds, for each identity, exactly its longest accepted history. */
  lemma {:induction false} InvariantOfRun(scheme: Scheme, trace: seq<RotationChain>, identity: string)
    ensures Invariant(scheme, trace, Run(scheme, trace), identity)
  {
    if trace != [] {
      var front, chain := trace[..|trace| - 1], trace[|trace| - 1];
      assert trace == front + [chain];
      InvariantOfRun(scheme, front, identity);
      var reg := Run(scheme, front);
      hide Authentic, Learned, Invariant, Fingerprints;
      if !Authentic(scheme, chain) || Identity(chain) != identity {
        InvariantFrame(scheme, front, reg, chain, identity);
      } else if FirstConflict(reg.seen, identity, Fingerprints(scheme, chain), 0).None? {
        AcceptedInvariant(scheme, front, reg, chain);
      } else {
        RejectedInvariant(scheme, front, reg, chain);
      }
    }
  }

  /** Two chains of the identity, both valid and both presented, prove the key leaked. */
  ghost predicate Forked(scheme: Scheme, trace: seq<RotationChain>, identity: string) {
    exists a, b, k: nat ::
      Presented(scheme, trace, identity, a) && Presented(scheme, trace, identity, b) && DifferAt(scheme, a, b, k)
  }

  ghost predicate Longest(scheme: Scheme, trace: seq<RotationChain>, identity: string, l: RotationChain) {
    && Presented(scheme, trace, identity, l)
    && forall c | Presented(scheme, trace, identity, c) :: Last(c) <= Last(l)
  }

  /** The registry's verdict as a function of the chains presented: it refuses exactly the forked identities,
      answers an unknown identity with itself, and otherwise gives the current address of a longest chain. */
  lemma VerdictOfRun(scheme: Scheme, trace: seq<RotationChain>, identity: string)
    ensures
      var answer := ResolveIn(Run(scheme, trace), identity);
      && (answer.None? <==> Forked(scheme, trace, identity))
      && ((forall c :: !Presented(scheme, trace, identity, c)) ==> answer == Some(identity))
      && (answer.Some? && (exists c :: Presented(scheme, trace, identity, c)) ==>
            exists l :: Longest(scheme, trace, identity, l) && answer == Some(Head(l).currentAddress))
  {
    hide Presented, Fingerprints, RecordAt, Run;
    var reg := Run(scheme, trace);
    InvariantOfRun(scheme, trace, identity);
    if Unknown(reg, identity) {
    } else {
      var l :| Adopted(scheme, trace, reg, identity, l);
      if identity in reg.duplicity {
        EvidenceProvesFork(scheme, trace, reg, identity, l);
      } else {
        NoForkWhenAgreed(scheme, trace, reg, identity, l);
        assert Longest(scheme, trace, identity, l);
      }
    }
  }

  lemma EvidenceProvesFork(scheme: Scheme, trace: seq<RotationChain>, reg: Registry, identity: string, l: RotationChain)
    requires EvidenceHolds(scheme, trace, reg, identity) && identity in reg.duplicity
    requires Adopted(scheme, trace, reg, identity, l)
    ensures Forked(scheme, trace, identity)
  {
    hide Fingerprints, RecordAt, Presented, InForce, Standing;
    var e := reg.duplicity[identity][0];
    assert e in reg.duplicity[identity];
    var c, k :| Departs(scheme, trace, reg, identity, e, c, k);
    assert Clash(Fingerprints(scheme, c), Fingerprints(scheme, l), k);
    assert DifferAt(scheme, c, l, k);
  }

  lemma NoForkWhenAgreed(scheme: Scheme, trace: seq<RotationChain>, reg: Registry, identity: string, l: RotationChain)
    requires Adopted(scheme, trace, reg, identity, l) && identity !in reg.duplicity
    ensures !Forked(scheme, trace, identity)
  {
    hide Presented, Fingerprints, RecordAt;
    forall a, b, k: nat | Presented(scheme, trace, identity, a) && Presented(scheme, trace, identity, b)
      ensures !DifferAt(scheme, a, b, k)
    {
      assert !Clash(Fingerprints(scheme, a), Fingerprints(scheme, l), k);
      assert !Clash(Fingerprints(scheme, b), Fingerprints(scheme, l), k);
    }
  }

  // ----- order of learning -----

  lemma PayloadsAreWellFormed(scheme: Scheme, record: Record)
    ensures WellFormed(PayloadOf(scheme, record))
  {
  }

  /** Equal fingerprints fix the key in force and the commitment standing after that step. */
  lemma FingerprintFixesState(scheme: Scheme, a: RotationChain, b: RotationChain, k: nat)
    requires CollisionFree(scheme) && k <= Last(a) && k <= Last(b) && !DifferAt(scheme, a, b, k)
    ensures InForce(a, k) == InForce(b, k) && Standing(a, k) == Standing(b, k)
  {
    var r, s := RecordAt(a, k), RecordAt(b, k);
    assert Fingerprints(scheme, a)[k] == Fingerprint(scheme, r) && Fingerprints(scheme, b)[k] == Fingerprint(scheme, s);
    FingerprintFixesPayload(scheme, r, s);
    if k == 0 {
      InceptionPayloadCovers(scheme, a.inception, b.inception);
    } else {
      RotationPayloadCovers(scheme, a.rotations[k - 1], b.rotations[k - 1]);
    }
  }

  lemma FingerprintFixesPayload(scheme: Scheme, r: Record, s: Record)
    requires CollisionFree(scheme) && Fingerprint(scheme, r) == Fingerprint(scheme, s)
    ensures ContextOf(r) == ContextOf(s) && Same(PayloadOf(scheme, r), PayloadOf(scheme, s))
  {
    hide PayloadOf, Same, Canonicalize, Utf8, LengthPrefix, DomainTag;
    ContextAccepted(ContextOf(r));
    ContextAccepted(ContextOf(s));
    assert scheme.digest(Input(ContextOf(r), PayloadOf(scheme, r))) ==
      scheme.digest(Input(ContextOf(s), PayloadOf(scheme, s)));
    PayloadsAreWellFormed(scheme, r);
    PayloadsAreWellFormed(scheme, s);
    OneInputPerArtifact(ContextOf(r), PayloadOf(scheme, r), ContextOf(s), PayloadOf(scheme, s));
  }

  /** Two records assert the same: they are of one kind, and agree in everything but the signature. */
  predicate SameRecord(scheme: Scheme, r: Record, s: Record) {
    match (r, s)
    case (InceptionRecord(a), InceptionRecord(b)) => SameInception(scheme, a, b)
    case (RotationRecord(a), RotationRecord(b)) => SameRotation(scheme, a, b)
    case _ => false
  }

  /** A fingerprint is the digest of the exact bytes the record's signature covers. */
  lemma FingerprintLayout(scheme: Scheme, r: Record)
    ensures r.InceptionRecord? ==>
      SigningInput("inception", InceptionPayload(scheme, r.inception)).Some? &&
      Fingerprint(scheme, r) == scheme.digest(SigningInput("inception", InceptionPayload(scheme, r.inception)).value)
    ensures r.RotationRecord? ==>
      SigningInput("key-rotation", RotationPayload(scheme, r.rotation)).Some? &&
      Fingerprint(scheme, r) == scheme.digest(SigningInput("key-rotation", RotationPayload(scheme, r.rotation)).value)
  {
    hide InceptionPayload, RotationPayload, Canonicalize;
    ContextAccepted(ContextOf(r));
  }

  lemma ContextTellsKind(r: Record, s: Record)
    ensures ContextOf(r) == ContextOf(s) ==> r.InceptionRecord? == s.InceptionRecord?
  {
    assert CONTEXT_INCEPTION[0] == 'i' && CONTEXT_KEY_ROTATION[0] == 'k';
  }

  /** Two records have one fingerprint exactly when they assert the same: no field can differ unnoticed, the time
      included, and nothing else matters. */
  lemma FingerprintIdentifiesRecord(scheme: Scheme, r: Record, s: Record)
    requires CollisionFree(scheme)
    ensures Fingerprint(scheme, r) == Fingerprint(scheme, s) <==> SameRecord(scheme, r, s)
  {
    hide CollisionFree, Same, InceptionPayload, RotationPayload, Input;
    ContextTellsKind(r, s);
    if Fingerprint(scheme, r) == Fingerprint(scheme, s) {
      FingerprintFixesPayload(scheme, r, s);
    }
    match (r, s)
    case (InceptionRecord(a), InceptionRecord(b)) =>
      InceptionPayloadCovers(scheme, a, b);
      if SameInception(scheme, a, b) {
        PayloadFixesFingerprint(scheme, r, s);
      }
    case (RotationRecord(a), RotationRecord(b)) =>
      RotationPayloadCovers(scheme, a, b);
      if SameRotation(scheme, a, b) {
        PayloadFixesFingerprint(scheme, r, s);
      }
    case _ =>
  }

  lemma PayloadFixesFingerprint(scheme: Scheme, r: Record, s: Record)
    requires ContextOf(r) == ContextOf(s) && Same(PayloadOf(scheme, r), PayloadOf(scheme, s))
    ensures Fingerprint(scheme, r) == Fingerprint(scheme, s)
  {
    hide PayloadOf, Same, Canonicalize, ContextOf;
    PayloadsAreWellFormed(scheme, r);
    PayloadsAreWellFormed(scheme, s);
    OneTextPerValue(PayloadOf(scheme, r), PayloadOf(scheme, s));
  }

  /** Two presented valid chains whose records at one step assert different things. */
  ghost predicate Disagree(scheme: Scheme, trace: seq<RotationChain>, identity: string, a: RotationChain,
                           b: RotationChain, k: nat)
  {
    && Presented(scheme, trace, identity, a) && Presented(scheme, trace, identity, b)
    && k <= Last(a) && k <= Last(b)
    && !SameRecord(scheme, RecordAt(a, k), RecordAt(b, k))
  }

  lemma DifferingRecords(scheme: Scheme, a: RotationChain, b: RotationChain, k: nat)
    requires CollisionFree(scheme)
    ensures DifferAt(scheme, a, b, k) <==>
      k <= Last(a) && k <= Last(b) && !SameRecord(scheme, RecordAt(a, k), RecordAt(b, k))
  {
    hide CollisionFree, SameRecord, RecordAt, Fingerprint;
    if k <= Last(a) && k <= Last(b) {
      FingerprintIdentifiesRecord(scheme, RecordAt(a, k), RecordAt(b, k));
    }
  }

  /** `resolve` refuses exactly the identities for which two presented valid chains differ at a step in anything that
      step asserts: an address, a commitment, a sequence or a time. */
  lemma RefusesDifferingRecords(scheme: Scheme, trace: seq<RotationChain>, identity: string)
    requires CollisionFree(scheme)
    ensures ResolveIn(Run(scheme, trace), identity).None? <==>
      exists a, b, k: nat :: Disagree(scheme, trace, identity, a, b, k)
  {
    VerdictOfRun(scheme, trace, identity);
    hide CollisionFree, Run, ResolveIn, Presented, DifferAt, SameRecord, RecordAt;
    forall a, b, k: nat
      ensures Disagree(scheme, trace, identity, a, b, k) <==>
        Presented(scheme, trace, identity, a) && Presented(scheme, trace, identity, b) && DifferAt(scheme, a, b, k)
    {
      DifferingRecords(scheme, a, b, k);
    }
  }

  /** The verdict depends only on which valid chains were presented for the identity: learning order, repetition,
      invalid chains and other identities' chains do not matter. */
  lemma OrderIsImmaterial(scheme: Scheme, one: seq<RotationChain>, other: seq<RotationChain>, identity: string)
    requires CollisionFree(scheme)
    requires forall c :: Presented(scheme, one, identity, c) <==> Presented(scheme, other, identity, c)
    ensures ResolveIn(Run(scheme, one), identity) == ResolveIn(Run(scheme, other), identity)
  {
    VerdictOfRun(scheme, one, identity);
    VerdictOfRun(scheme, other, identity);
    hide Presented, Run, Fingerprints, InForce, Standing, ResolveIn, DifferAt;
    assert Forked(scheme, one, identity) <==> Forked(scheme, other, identity);
    if !Forked(scheme, one, identity) && exists c :: Presented(scheme, one, identity, c) {
      var l :| Longest(scheme, one, identity, l) &&
        ResolveIn(Run(scheme, one), identity) == Some(Head(l).currentAddress);
      var m :| Longest(scheme, other, identity, m) &&
        ResolveIn(Run(scheme, other), identity) == Some(Head(m).currentAddress);
      LongestAgree(scheme, one, identity, l, m);
    }
  }

  lemma LongestAgree(scheme: Scheme, trace: seq<RotationChain>, identity: string, l: RotationChain, m: RotationChain)
    requires CollisionFree(scheme) && !Forked(scheme, trace, identity)
    requires Longest(scheme, trace, identity, l) && Longest(scheme, trace, identity, m)
    ensures Head(l).currentAddress == Head(m).currentAddress
  {
    hide Presented, Fingerprints, DifferAt;
    assert !DifferAt(scheme, l, m, Last(l));
    FingerprintFixesState(scheme, l, m, Last(l));
  }

  // ----- evidence -----

  /** The address whose key signs the record. */
  function SignerOf(record: Record): string {
    match record
    case InceptionRecord(inception) => inception.address
    case RotationRecord(rotation) => rotation.previous
  }

  predicate RecordVerifies(scheme: Scheme, record: Record) {
    match record
    case InceptionRecord(inception) => InceptionVerifies(scheme, inception)
    case RotationRecord(rotation) => RotationVerifies(scheme, rotation)
  }

  function SequenceOf(record: Record): int {
    match record
    case InceptionRecord(_) => 0
    case RotationRecord(rotation) => rotation.sequence
  }

  lemma AuthenticRecords(scheme: Scheme, c: RotationChain, k: nat)
    requires Authentic(scheme, c) && k <= Last(c)
    ensures RecordVerifies(scheme, RecordAt(c, k)) && SequenceOf(RecordAt(c, k)) == k
    ensures SignerOf(RecordAt(c, k)) == if k == 0 then Identity(c) else InForce(c, k - 1)
  {
    hide InceptionVerifies, RotationVerifies, CommitmentForAddress;
    if k > 0 {
      assert Follows(scheme, StateAt(c, k - 1), c.rotations[k - 1]);
    }
  }

  /** Two records at one sequence, with different fingerprints, both validly signed by the same key. */
  ghost predicate ProvesLeak(scheme: Scheme, e: Record, accepted: Record) {
    && RecordVerifies(scheme, e) && RecordVerifies(scheme, accepted)
    && SignerOf(e) == SignerOf(accepted)
    && SequenceOf(e) == SequenceOf(accepted)
    && ContextOf(e) == ContextOf(accepted)
    && PayloadOf(scheme, e) != PayloadOf(scheme, accepted)
    && Fingerprint(scheme, e) != Fingerprint(scheme, accepted)
  }

  /** Record e is step k of a presented chain c, and parts there from step k of the history l the registry holds. */
  ghost predicate Counterpart(scheme: Scheme, trace: seq<RotationChain>, identity: string, e: Record, c: RotationChain,
                              l: RotationChain, k: nat)
  {
    && Presented(scheme, trace, identity, c) && Presented(scheme, trace, identity, l)
    && Holds(scheme, Run(scheme, trace), identity, l)
    && k <= Last(c) && k <= Last(l)
    && e == RecordAt(c, k) && SequenceOf(e) == k
    && DifferAt(scheme, c, l, k)
    && ProvesLeak(scheme, e, RecordAt(l, k))
  }

  /** All evidence a learning registry holds is proof of a leaked key: each record has an accepted counterpart at its
      own sequence. No record is listed twice. */
  lemma EvidenceIsSound(scheme: Scheme, trace: seq<RotationChain>, identity: string)
    requires CollisionFree(scheme)
    ensures
      var reg := Run(scheme, trace);
      var evidence := Evidence(reg.duplicity, identity);
      && (identity in reg.duplicity <==> evidence != [])
      && (forall i, j | 0 <= i < j < |evidence| :: evidence[i] != evidence[j])
      && forall e | e in evidence :: exists c, l, k: nat :: Counterpart(scheme, trace, identity, e, c, l, k)
  {
    hide Run, Fingerprints, Holds, Authentic, ProvesLeak, DifferAt, SequenceOf;
    var reg := Run(scheme, trace);
    InvariantOfRun(scheme, trace, identity);
    forall e | e in Evidence(reg.duplicity, identity)
      ensures exists c, l, k: nat :: Counterpart(scheme, trace, identity, e, c, l, k)
    {
      var l :| Adopted(scheme, trace, reg, identity, l);
      var c, k :| Departs(scheme, trace, reg, identity, e, c, k);
      DepartureClashes(scheme, reg, c, l, k);
      DepartureProvesLeak(scheme, reg, c, l, k);
      AuthenticRecords(scheme, c, k);
      assert Counterpart(scheme, trace, identity, e, c, l, k);
    }
  }

  lemma DepartureProvesLeak(scheme: Scheme, reg: Registry, c: RotationChain, l: RotationChain, k: nat)
    requires CollisionFree(scheme) && Authentic(scheme, c) && Authentic(scheme, l) && Identity(c) == Identity(l)
    requires Holds(scheme, reg, Identity(l), l) && ParentsAgree(reg.seen, Identity(l), Fingerprints(scheme, c), k)
    ensures k <= Last(l) && ProvesLeak(scheme, RecordAt(c, k), RecordAt(l, k))
  {
    hide CollisionFree, RecordAt, RecordVerifies, SignerOf, SequenceOf, PayloadOf, ContextOf, Authentic, Holds;
    hide ParentsAgree, DifferAt, InForce, Standing, Fingerprint;
    DepartureClashes(scheme, reg, c, l, k);
    if k > 0 {
      FingerprintFixesState(scheme, c, l, k - 1);
    }
    AuthenticRecords(scheme, c, k);
    AuthenticRecords(scheme, l, k);
    DifferentPayloads(scheme, c, l, k);
  }

  lemma DifferentPayloads(scheme: Scheme, c: RotationChain, l: RotationChain, k: nat)
    requires DifferAt(scheme, c, l, k)
    ensures ContextOf(RecordAt(c, k)) == ContextOf(RecordAt(l, k))
    ensures PayloadOf(scheme, RecordAt(c, k)) != PayloadOf(scheme, RecordAt(l, k))
    ensures Fingerprint(scheme, RecordAt(c, k)) != Fingerprint(scheme, RecordAt(l, k))
  {
    hide PayloadOf, Input;
    assert Fingerprint(scheme, RecordAt(c, k)) != Fingerprint(scheme, RecordAt(l, k));
  }

  lemma DepartureClashes(scheme: Scheme, reg: Registry, c: RotationChain, l: RotationChain, k: nat)
    requires Holds(scheme, reg, Identity(l), l) && ParentsAgree(reg.seen, Identity(l), Fingerprints(scheme, c), k)
    ensures k <= Last(c) && k <= Last(l)
    ensures DifferAt(scheme, c, l, k) && (k > 0 ==> !DifferAt(scheme, c, l, k - 1))
  {
    hide Fingerprints, Head;
  }

  // ----- learning after a conflict -----

  lemma ConflictIsClash(seen: map<(string, int), string>, identity: string, prior: seq<string>, steps: seq<string>)
    requires SeenAs(seen, identity, prior)
    ensures FirstConflict(seen, identity, steps, 0).None? <==> Agree(steps, prior)
  {
    var first := FirstConflict(seen, identity, steps, 0);
    if first.None? {
      NoConflictAgrees(seen, identity, prior, steps);
    } else {
      assert Clash(steps, prior, first.value);
    }
  }

  /** The chain continues the history: it agrees with it and is longer. */
  ghost predicate Continues(scheme: Scheme, chain: RotationChain, l: RotationChain) {
    Compatible(scheme, chain, l) && Last(chain) > Last(l)
  }

  /** What one valid chain does to a registry that holds l, whether or not the identity is already flagged: the state
      advances exactly on a continuation of l, and the call raises and flags exactly on a chain that disagrees. */
  lemma StateAfterLearn(scheme: Scheme, reg: Registry, chain: RotationChain, l: RotationChain)
    requires Authentic(scheme, chain) && Holds(scheme, reg, Identity(chain), l)
    ensures
      var after, next := Learned(scheme, reg, chain).0, if Continues(scheme, chain, l) then chain else l;
      && Holds(scheme, after, Identity(chain), next)
      && StateIn(after, Identity(chain)) == Some(Head(next))
      && Learned(scheme, reg, chain).1 == (if Compatible(scheme, chain, l) then Some(Head(next)) else None)
      && (Identity(chain) in after.duplicity <==>
            Identity(chain) in reg.duplicity || !Compatible(scheme, chain, l))
  {
    var identity, steps := Identity(chain), Fingerprints(scheme, chain);
    ConflictIsClash(reg.seen, identity, Fingerprints(scheme, l), steps);
    hide Authentic, Fingerprints, FirstConflict, Written, SeenAs, Agree, Head, RecordAt, Learned;
    if FirstConflict(reg.seen, identity, steps, 0).None? {
      NextChainHeld(scheme, reg, chain, l);
      LearnAccepts(scheme, reg, chain);
    } else {
      LearnRejects(scheme, reg, chain);
    }
  }

  lemma RunNext(scheme: Scheme, trace: seq<RotationChain>, chain: RotationChain)
    ensures Run(scheme, trace + [chain]) == Learned(scheme, Run(scheme, trace), chain).0
  {
    hide Learned;
    assert (trace + [chain])[..|trace|] == trace;
  }

  /** Another identity's chain, or an invalid one, leaves what is held. */
  lemma HoldsFrame(scheme: Scheme, reg: Registry, chain: RotationChain, identity: string, l: RotationChain)
    requires Holds(scheme, reg, identity, l)
    requires !Authentic(scheme, chain) || Identity(chain) != identity
    ensures Holds(scheme, Learned(scheme, reg, chain).0, identity, l)
  {
    hide Authentic, Fingerprints, Head, Learned;
    LearnFrame(scheme, reg, chain, identity);
  }

  /** A chain that agrees with a continuation agrees with what was continued. */
  lemma ContinuesThrough(scheme: Scheme, c: RotationChain, next: RotationChain, l: RotationChain)
    requires next == l || Continues(scheme, next, l)
    ensures Continues(scheme, c, next) ==> Continues(scheme, c, l)
  {
    hide Fingerprints;
    if Continues(scheme, c, next) && next != l {
      forall k: nat
        ensures !Clash(Fingerprints(scheme, c), Fingerprints(scheme, l), k)
      {
        assert !Clash(Fingerprints(scheme, c), Fingerprints(scheme, next), k);
        assert !Clash(Fingerprints(scheme, next), Fingerprints(scheme, l), k);
      }
    }
  }

  ghost predicate Continued(scheme: Scheme, more: seq<RotationChain>, identity: string, l: RotationChain) {
    exists c :: Presented(scheme, more, identity, c) && Continues(scheme, c, l)
  }

  /** From a registry that holds l, flagged or not, a run of further chains advances the state exactly when one of them
      continues l; otherwise it still holds l. */
  lemma {:induction false} AdvancesExactly(scheme: Scheme, trace: seq<RotationChain>, more: seq<RotationChain>,
                                           identity: string, l: RotationChain) returns (next: RotationChain)
    requires Holds(scheme, Run(scheme, trace), identity, l)
    ensures Holds(scheme, Run(scheme, trace + more), identity, next)
    ensures if Continued(scheme, more, identity, l) then Continues(scheme, next, l) else next == l
    decreases |more|
  {
    hide Run, Holds, Authentic, Continues;
    if more == [] {
      assert trace + more == trace;
      next := l;
    } else {
      var front, chain := more[..|more| - 1], more[|more| - 1];
      assert more == front + [chain] && trace + more == trace + front + [chain];
      RunNext(scheme, trace + front, chain);
      var held := AdvancesExactly(scheme, trace, front, identity, l);
      assert forall c :: Presented(scheme, more, identity, c) <==>
        Presented(scheme, front, identity, c) ||
          (c == chain && Authentic(scheme, chain) && Identity(chain) == identity);
      var reg := Run(scheme, trace + front);
      if Authentic(scheme, chain) && Identity(chain) == identity {
        StateAfterLearn(scheme, reg, chain, held);
        ContinuesThrough(scheme, chain, held, l);
        next := if Continues(scheme, chain, held) then chain else held;
      } else {
        HoldsFrame(scheme, reg, chain, identity, held);
        next := held;
      }
      hide Presented, Learned;
      assert Continued(scheme, front, identity, l) ==> Continued(scheme, more, identity, l);
    }
  }

  lemma OneStep(scheme: Scheme, c: RotationChain, l: RotationChain)
    requires c.inception == l.inception && Last(l) == 0
    ensures Compatible(scheme, c, l)
  {
    assert Fingerprints(scheme, c)[0] == Fingerprints(scheme, l)[0];
  }

  /** A run that advances a flagged identity: a history, a second inception signed by its key, then the history's own
      next rotation. `learn` refuses the second chain only. */
  lemma FlaggedIdentityAdvances(scheme: Scheme, keys: Bytes, nextKeys: Bytes, otherKeys: Bytes, followingKeys: Bytes,
                                now: int)
    requires Correct(scheme) && CollisionFree(scheme) && scheme.publicKey(nextKeys) != scheme.publicKey(otherKeys)
    ensures
      var born, other := Create(scheme, keys, nextKeys, now), Create(scheme, keys, otherKeys, now);
      && born.Some? && other.Some?
      && var grown := Rotate(scheme, born.value, followingKeys, now);
      && grown.Some?
      && var identity, history, longer := born.value.identity, born.value.chain, grown.value.chain;
      && var before := Run(scheme, [history, other.value.chain]);
      && var after := Run(scheme, [history, other.value.chain, longer]);
      && identity in before.duplicity && StateIn(before, identity) == Some(Head(history))
      && identity in after.duplicity && StateIn(after, identity) == Some(Head(longer))
      && Last(longer) == 1 && Last(history) == 0
      && ResolveIn(after, identity) == None
  {
    CreateIsCoherent(scheme, keys, nextKeys, now);
    CreateIsCoherent(scheme, keys, otherKeys, now);
    var born, other := Create(scheme, keys, nextKeys, now).value, Create(scheme, keys, otherKeys, now).value;
    RotateIsCoherent(scheme, born, 0, followingKeys, now);
    RotateAppends(scheme, born, followingKeys, now);
    var longer := Rotate(scheme, born, followingKeys, now).value.chain;
    HeadSequence(born.chain);
    HeadSequence(other.chain);
    HeadSequence(longer);
    assert Head(born.chain).nextCommitment != Head(other.chain).nextCommitment by {
      assert scheme.digest(scheme.publicKey(nextKeys)) != scheme.digest(scheme.publicKey(otherKeys));
    }
    assert Standing(born.chain, 0) != Standing(other.chain, 0);
    ThreeChains(scheme, born.chain, other.chain, longer, born.identity);
  }

  lemma ThreeChains(scheme: Scheme, history: RotationChain, fork: RotationChain, longer: RotationChain,
                    identity: string)
    requires CollisionFree(scheme)
    requires Authentic(scheme, history) && Authentic(scheme, fork) && Authentic(scheme, longer)
    requires Identity(history) == Identity(fork) == Identity(longer) == identity
    requires Last(history) == 0 && Last(fork) == 0 && Last(longer) == 1 && longer.inception == history.inception
    requires Standing(history, 0) != Standing(fork, 0)
    ensures
      var before, after := Run(scheme, [history, fork]), Run(scheme, [history, fork, longer]);
      && identity in before.duplicity && StateIn(before, identity) == Some(Head(history))
      && identity in after.duplicity && StateIn(after, identity) == Some(Head(longer))
  {
    hide CollisionFree, Authentic, Holds, InForce, Standing, Learned, Fingerprints, Run, Head;
    assert [] + [history] == [history] && [history] + [fork] == [history, fork];
    assert [history, fork] + [longer] == [history, fork, longer];
    RunNext(scheme, [], history);
    RunNext(scheme, [history], fork);
    RunNext(scheme, [history, fork], longer);
    FirstIsHeld(scheme, history);
    if Compatible(scheme, fork, history) {
      assert !DifferAt(scheme, fork, history, 0);
      FingerprintFixesState(scheme, fork, history, 0);
      assert false;
    }
    StateAfterLearn(scheme, Run(scheme, [history]), fork, history);
    OneStep(scheme, longer, history);
    StateAfterLearn(scheme, Run(scheme, [history, fork]), longer, history);
  }

  lemma FirstIsHeld(scheme: Scheme, chain: RotationChain)
    requires Authentic(scheme, chain)
    ensures Holds(scheme, Learned(scheme, Run(scheme, []), chain).0, Identity(chain), chain)
  {
    hide Authentic, Fingerprints, Head;
    FirstChainHeld(scheme, EMPTY, chain);
  }
}
