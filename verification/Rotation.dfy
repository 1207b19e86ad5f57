/** Key histories: an inception and its rotations, replayed under pre-rotation commitments. */
module Rotation {
  import opened Wrappers
  import opened Text
  import opened CanonicalJson
  import opened Signing
  import opened Crypto
  import Base58

  datatype Inception = Inception(address: string, nextCommitment: string, createdAt: int, signature: string)

  datatype KeyRotation = KeyRotation(
    identity: string,
    sequence: int,
    previous: string,
    nextAddress: string,
    nextCommitment: string,
    rotatedAt: int,
    signature: string)

  datatype RotationChain = RotationChain(inception: Inception, rotations: seq<KeyRotation>)

  datatype RotationState = RotationState(
    identity: string,
    currentAddress: string,
    nextCommitment: string,
    sequence: int)

  function InceptionPayload(scheme: Scheme, inception: Inception): Json {
    Obj([
      Field("address", Str(inception.address)),
      Field("created_at", Str(scheme.timestamp(inception.createdAt))),
      Field("next_commitment", Str(inception.nextCommitment))])
  }

  function RotationPayload(scheme: Scheme, rotation: KeyRotation): Json {
    Obj([
      Field("identity", Str(rotation.identity)),
      Field("next_address", Str(rotation.nextAddress)),
      Field("next_commitment", Str(rotation.nextCommitment)),
      Field("previous", Str(rotation.previous)),
      Field("rotated_at", Str(scheme.timestamp(rotation.rotatedAt))),
      Field("sequence", Int(rotation.sequence))])
  }

  lemma InceptionAscends(scheme: Scheme, inception: Inception)
    ensures
      var fields := InceptionPayload(scheme, inception).fields;
      Ascending(fields) && forall i | 0 <= i < |fields| :: IsPlain(fields[i].key)
  {
    hide Precedes;
    var fields := InceptionPayload(scheme, inception).fields;
    PrecedesByChar(fields[0].key, fields[1].key, 0);
    PrecedesByChar(fields[1].key, fields[2].key, 0);
  }

  /** The exact text an inception signs. */
  lemma InceptionText(scheme: Scheme, inception: Inception)
    ensures Canonicalize(InceptionPayload(scheme, inception)) ==
      "{" + Join([
        Labelled("address", EncodeString(inception.address)),
        Labelled("created_at", EncodeString(scheme.timestamp(inception.createdAt))),
        Labelled("next_commitment", EncodeString(inception.nextCommitment))], ',') + "}"
  {
    hide Canonicalize, EncodeString, Join, Ascending, IsPlain, Labelled;
    var fields := InceptionPayload(scheme, inception).fields;
    InceptionAscends(scheme, inception);
    AscendingIsDistinct(fields);
    RecordText(fields, fields);
    StringText(inception.address);
    StringText(scheme.timestamp(inception.createdAt));
    StringText(inception.nextCommitment);
    assert Entries(fields) == [Entry(fields[0]), Entry(fields[1]), Entry(fields[2])];
  }

  lemma RotationAscends(scheme: Scheme, rotation: KeyRotation)
    ensures
      var fields := RotationPayload(scheme, rotation).fields;
      Ascending(fields) && forall i | 0 <= i < |fields| :: IsPlain(fields[i].key)
  {
    hide Precedes, IsPlain;
    var fields := RotationPayload(scheme, rotation).fields;
    PrecedesByChar("identity", "next_address", 0);
    PrecedesByChar("next_address", "next_commitment", 5);
    PrecedesByChar("next_commitment", "previous", 0);
    PrecedesByChar("previous", "rotated_at", 0);
    PrecedesByChar("rotated_at", "sequence", 0);
    RotationKeysArePlain();
  }

  lemma RotationKeysArePlain()
    ensures IsPlain("identity") && IsPlain("next_address") && IsPlain("next_commitment") && IsPlain("previous")
    ensures IsPlain("rotated_at") && IsPlain("sequence")
  {
  }

  lemma RotationEntries(scheme: Scheme, r: KeyRotation)
    ensures Entries(RotationPayload(scheme, r).fields) == [
      Labelled("identity", EncodeString(r.identity)),
      Labelled("next_address", EncodeString(r.nextAddress)),
      Labelled("next_commitment", EncodeString(r.nextCommitment)),
      Labelled("previous", EncodeString(r.previous)),
      Labelled("rotated_at", EncodeString(scheme.timestamp(r.rotatedAt))),
      Labelled("sequence", EncodeNumber(r.sequence))]
  {
    hide Canonicalize, EncodeString, EncodeNumber, Entry, Labelled;
    StringEntry("identity", r.identity);
    StringEntry("next_address", r.nextAddress);
    StringEntry("next_commitment", r.nextCommitment);
    StringEntry("previous", r.previous);
    StringEntry("rotated_at", scheme.timestamp(r.rotatedAt));
    NumberText(r.sequence);
    EntryIs("sequence", Int(r.sequence), EncodeNumber(r.sequence));
  }

  /** The exact text a rotation signs. */
  lemma RotationText(scheme: Scheme, r: KeyRotation)
    ensures Canonicalize(RotationPayload(scheme, r)) ==
      "{" + Join([
        Labelled("identity", EncodeString(r.identity)),
        Labelled("next_address", EncodeString(r.nextAddress)),
        Labelled("next_commitment", EncodeString(r.nextCommitment)),
        Labelled("previous", EncodeString(r.previous)),
        Labelled("rotated_at", EncodeString(scheme.timestamp(r.rotatedAt))),
        Labelled("sequence", EncodeNumber(r.sequence))], ',') + "}"
  {
    var fields := RotationPayload(scheme, r).fields;
    assert RotationPayload(scheme, r) == Obj(fields);
    hide Canonicalize, EncodeString, EncodeNumber, Join, Ascending, IsPlain, Labelled, Entries, RotationPayload;
    RotationAscends(scheme, r);
    AscendingIsDistinct(fields);
    RecordText(fields, fields);
    RotationEntries(scheme, r);
  }

  function KeyCommitment(scheme: Scheme, key: Bytes): Option<string> {
    if |key| == 32 then Some(scheme.digest(key)) else None
  }

  function CommitmentForAddress(scheme: Scheme, address: string): Option<string> {
    match Base58.SigningKeyFromAddress(address)
    case None => None
    case Some(key) => KeyCommitment(scheme, key)
  }

  predicate InceptionVerifies(scheme: Scheme, inception: Inception) {
    VerifyByAddress(scheme, inception.address, CONTEXT_INCEPTION, InceptionPayload(scheme, inception),
      inception.signature)
  }

  predicate RotationVerifies(scheme: Scheme, rotation: KeyRotation) {
    VerifyByAddress(scheme, rotation.previous, CONTEXT_KEY_ROTATION, RotationPayload(scheme, rotation),
      rotation.signature)
  }

  /** The address's own key signed the inception, and the outgoing key signed the rotation, each under its own
      context. */
  lemma RecordsMean(scheme: Scheme, inception: Inception, rotation: KeyRotation)
    ensures InceptionVerifies(scheme, inception) <==>
      SignedBy(scheme, inception.address, "inception", InceptionPayload(scheme, inception), inception.signature)
    ensures RotationVerifies(scheme, rotation) <==>
      SignedBy(scheme, rotation.previous, "key-rotation", RotationPayload(scheme, rotation), rotation.signature)
  {
    hide InceptionPayload, RotationPayload, VerifyByAddress, SignedBy;
    VerifyMeans(scheme, inception.address, "inception", InceptionPayload(scheme, inception), inception.signature);
    VerifyMeans(scheme, rotation.previous, "key-rotation", RotationPayload(scheme, rotation), rotation.signature);
  }

  /** The same assertion: everything but the signature agrees, the instant as the text it is signed as. */
  predicate SameInception(scheme: Scheme, a: Inception, b: Inception) {
    && a.address == b.address && a.nextCommitment == b.nextCommitment
    && scheme.timestamp(a.createdAt) == scheme.timestamp(b.createdAt)
  }

  predicate SameRotation(scheme: Scheme, a: KeyRotation, b: KeyRotation) {
    && a.identity == b.identity && a.sequence == b.sequence && a.previous == b.previous
    && a.nextAddress == b.nextAddress && a.nextCommitment == b.nextCommitment
    && scheme.timestamp(a.rotatedAt) == scheme.timestamp(b.rotatedAt)
  }

  /** An inception's payload covers exactly its address, its commitment and its time. */
  lemma InceptionPayloadCovers(scheme: Scheme, a: Inception, b: Inception)
    ensures Same(InceptionPayload(scheme, a), InceptionPayload(scheme, b)) <==> SameInception(scheme, a, b)
  {
    hide WellFormed, Same;
    var p, q := InceptionPayload(scheme, a), InceptionPayload(scheme, b);
    InceptionPayloadIsWellFormed(scheme, a);
    InceptionPayloadIsWellFormed(scheme, b);
    if SameInception(scheme, a, b) {
      assert p == q;
      OneTextPerValue(p, q);
    }
    if Same(p, q) {
      SameTexts(p.fields, q.fields, 0);
      SameTexts(p.fields, q.fields, 1);
      SameTexts(p.fields, q.fields, 2);
    }
  }

  lemma InceptionPayloadIsWellFormed(scheme: Scheme, inception: Inception)
    ensures WellFormed(InceptionPayload(scheme, inception))
  {
    var fields := InceptionPayload(scheme, inception).fields;
    assert fields[0].key[0] == 'a' && fields[1].key[0] == 'c' && fields[2].key[0] == 'n';
  }

  lemma RotationPayloadIsWellFormed(scheme: Scheme, rotation: KeyRotation)
    ensures WellFormed(RotationPayload(scheme, rotation))
  {
  }

  /** A rotation's payload covers exactly its identity, sequence, outgoing address, incoming address, commitment and
      time. */
  lemma RotationPayloadCovers(scheme: Scheme, a: KeyRotation, b: KeyRotation)
    ensures Same(RotationPayload(scheme, a), RotationPayload(scheme, b)) <==> SameRotation(scheme, a, b)
  {
    hide WellFormed, Same;
    var p, q := RotationPayload(scheme, a), RotationPayload(scheme, b);
    RotationPayloadIsWellFormed(scheme, a);
    RotationPayloadIsWellFormed(scheme, b);
    if SameRotation(scheme, a, b) {
      assert p == q;
      OneTextPerValue(p, q);
    }
    if Same(p, q) {
      SameTexts(p.fields, q.fields, 0);
      SameTexts(p.fields, q.fields, 1);
      SameTexts(p.fields, q.fields, 2);
      SameTexts(p.fields, q.fields, 3);
      SameTexts(p.fields, q.fields, 4);
      SameAt(p.fields, q.fields, 5);
      SameNumbers(a.sequence, b.sequence);
    }
  }

  lemma SameNumbers(m: int, n: int)
    ensures Same(Int(m), Int(n)) ==> m == n
  {
  }

  /** The address in force after the first k rotations. */
  function InForce(chain: RotationChain, k: nat): string
    requires k <= |chain.rotations|
  {
    if k == 0 then chain.inception.address else chain.rotations[k - 1].nextAddress
  }

  /** The commitment standing after the first k rotations. */
  function Standing(chain: RotationChain, k: nat): string
    requires k <= |chain.rotations|
  {
    if k == 0 then chain.inception.nextCommitment else chain.rotations[k - 1].nextCommitment
  }

  /** `rotation` may follow a history that stands at `state`. */
  predicate Follows(scheme: Scheme, state: RotationState, rotation: KeyRotation) {
    && rotation.identity == state.identity
    && rotation.sequence == state.sequence + 1
    && rotation.previous == state.currentAddress
    && CommitmentForAddress(scheme, rotation.nextAddress) == Some(state.nextCommitment)
    && RotationVerifies(scheme, rotation)
  }

  function StateAt(chain: RotationChain, k: nat): RotationState
    requires k <= |chain.rotations|
  {
    RotationState(chain.inception.address, InForce(chain, k), Standing(chain, k), k)
  }

  function Head(chain: RotationChain): RotationState {
    StateAt(chain, |chain.rotations|)
  }

  /** Every record is signed by the key in force, in order, and reveals the key committed to before it. */
  predicate Authentic(scheme: Scheme, chain: RotationChain) {
    && InceptionVerifies(scheme, chain.inception)
    && forall k | 0 <= k < |chain.rotations| :: Follows(scheme, StateAt(chain, k), chain.rotations[k])
  }

  function Replay(scheme: Scheme, chain: RotationChain): Option<RotationState> {
    if Authentic(scheme, chain) then Some(Head(chain)) else None
  }

  lemma StepFollows(scheme: Scheme, chain: RotationChain, k: nat)
    requires k < |chain.rotations| && Follows(scheme, StateAt(chain, k), chain.rotations[k])
    ensures
      var rotation := chain.rotations[k];
      StateAt(chain, k + 1) ==
        RotationState(StateAt(chain, k).identity, rotation.nextAddress, rotation.nextCommitment, rotation.sequence)
  {
    hide RotationVerifies, CommitmentForAddress;
  }

  /** The checks of one iteration of the replay, in order. */
  method CheckFollows(scheme: Scheme, state: RotationState, rotation: KeyRotation) returns (ok: bool)
    ensures ok <==> Follows(scheme, state, rotation)
  {
    hide RotationVerifies, CommitmentForAddress;
    if rotation.identity != state.identity {
      return false;
    }
    if rotation.sequence != state.sequence + 1 {
      return false;
    }
    if rotation.previous != state.currentAddress {
      return false;
    }
    var revealed := CommitmentForAddress(scheme, rotation.nextAddress);
    if revealed != Some(state.nextCommitment) {
      return false;
    }
    return RotationVerifies(scheme, rotation);
  }

  method Resolve(scheme: Scheme, chain: RotationChain) returns (state: Option<RotationState>)
    ensures state.Some? <==> Authentic(scheme, chain)
    ensures state.Some? ==> state.value == Head(chain)
  {
    hide InceptionVerifies, Follows, StateAt;
    if !InceptionVerifies(scheme, chain.inception) {
      return None;
    }
    var identity := chain.inception.address;
    var current := chain.inception.address;
    var commitment := chain.inception.nextCommitment;
    var sequence := 0;
    StartsAtInception(chain);
    for k := 0 to |chain.rotations|
      invariant RotationState(identity, current, commitment, sequence) == StateAt(chain, k)
      invariant forall j | 0 <= j < k :: Follows(scheme, StateAt(chain, j), chain.rotations[j])
    {
      var rotation := chain.rotations[k];
      var follows := CheckFollows(scheme, RotationState(identity, current, commitment, sequence), rotation);
      if !follows {
        return None;
      }
      StepFollows(scheme, chain, k);
      current := rotation.nextAddress;
      commitment := rotation.nextCommitment;
      sequence := rotation.sequence;
    }
    return Some(RotationState(identity, current, commitment, sequence));
  }

  lemma StartsAtInception(chain: RotationChain)
    ensures StateAt(chain, 0) ==
      RotationState(chain.inception.address, chain.inception.address, chain.inception.nextCommitment, 0)
  {
  }

  function Append(chain: RotationChain, rotation: KeyRotation): RotationChain {
    chain.(rotations := chain.rotations + [rotation])
  }

  method Extend(scheme: Scheme, chain: RotationChain, rotation: KeyRotation) returns (extended: Option<RotationChain>)
    ensures extended ==
      if Authentic(scheme, Append(chain, rotation)) then Some(Append(chain, rotation)) else None
  {
    var candidate := Append(chain, rotation);
    var state := Resolve(scheme, candidate);
    return if state.Some? then Some(candidate) else None;
  }

  /** Extending a chain agrees with one more replay step from where the chain stands. */
  lemma ExtendIsOneStep(scheme: Scheme, chain: RotationChain, rotation: KeyRotation)
    ensures Authentic(scheme, Append(chain, rotation)) <==>
      Authentic(scheme, chain) && Follows(scheme, Head(chain), rotation)
    ensures Authentic(scheme, Append(chain, rotation)) ==>
      Head(Append(chain, rotation)) ==
      RotationState(chain.inception.address, rotation.nextAddress, rotation.nextCommitment, rotation.sequence)
  {
    hide InceptionVerifies, RotationVerifies, CommitmentForAddress;
    var extended, n := Append(chain, rotation), |chain.rotations|;
    assert forall k | 0 <= k <= n :: StateAt(extended, k) == StateAt(chain, k);
    assert extended.rotations[n] == rotation;
    assert forall k | 0 <= k < n :: extended.rotations[k] == chain.rotations[k];
  }

  /** Every prefix of an authentic chain is authentic, and stands where the chain stood at that point. */
  lemma PrefixIsAuthentic(scheme: Scheme, chain: RotationChain, n: nat)
    requires Authentic(scheme, chain) && n <= |chain.rotations|
    ensures
      var prefix := chain.(rotations := chain.rotations[..n]);
      Authentic(scheme, prefix) && Head(prefix) == StateAt(chain, n)
  {
    hide InceptionVerifies, RotationVerifies, CommitmentForAddress;
    var prefix := chain.(rotations := chain.rotations[..n]);
    assert forall k | 0 <= k <= n :: StateAt(prefix, k) == StateAt(chain, k);
  }

  // ----- forks -----

  /** The signed payload at step k: the inception at 0, then the rotations. */
  function PayloadAt(scheme: Scheme, chain: RotationChain, k: nat): Json
    requires k <= |chain.rotations|
  {
    if k == 0 then InceptionPayload(scheme, chain.inception) else RotationPayload(scheme, chain.rotations[k - 1])
  }

  lemma PayloadFixesState(scheme: Scheme, a: RotationChain, b: RotationChain, k: nat)
    requires k <= |a.rotations| && k <= |b.rotations|
    requires PayloadAt(scheme, a, k) == PayloadAt(scheme, b, k)
    ensures InForce(a, k) == InForce(b, k) && Standing(a, k) == Standing(b, k)
  {
    var p, q := PayloadAt(scheme, a, k).fields, PayloadAt(scheme, b, k).fields;
    assert p[0] == q[0] && p[1] == q[1] && p[2] == q[2];
  }

  /** An address satisfies a commitment exactly when the commitment is the digest of the key the address was built
      from. */
  lemma CommitmentIs(scheme: Scheme, address: string, commitment: string)
    ensures CommitmentForAddress(scheme, address) == Some(commitment) <==>
      exists key :: Base58.AddressFromSigningKey(key) == Some(address) && commitment == scheme.digest(key)
  {
    hide Base58.Encode, Base58.Decode;
    match Base58.SigningKeyFromAddress(address)
    case Some(key) =>
      Base58.AddressesNameKeys(address, key);
      forall other | Base58.AddressFromSigningKey(other) == Some(address)
        ensures other == key
      {
        Base58.AddressesNameKeys(address, other);
      }
    case None =>
      forall other | Base58.AddressFromSigningKey(other) == Some(address)
        ensures false
      {
        Base58.AddressesNameKeys(address, other);
      }
  }

  /** The two addresses name different keys with one digest. */
  ghost predicate KeysCollide(scheme: Scheme, a: string, b: string) {
    var x, y := Base58.SigningKeyFromAddress(a), Base58.SigningKeyFromAddress(b);
    x.Some? && y.Some? && x != y && scheme.digest(x.value) == scheme.digest(y.value)
  }

  /** A commitment admits one address, short of a SHA-256 collision between the two keys. */
  lemma CommitmentAdmitsOneAddress(scheme: Scheme, a: string, b: string, commitment: string)
    requires CommitmentForAddress(scheme, a) == CommitmentForAddress(scheme, b) == Some(commitment)
    ensures a == b || KeysCollide(scheme, a, b)
  {
    Base58.AddressesNameKeys(a, Base58.SigningKeyFromAddress(a).value);
    Base58.AddressesNameKeys(b, Base58.SigningKeyFromAddress(b).value);
  }

  /** The payload is determined by everything but the signature. */
  lemma PayloadCovers(scheme: Scheme, r: KeyRotation, s: KeyRotation)
    requires r.(signature := "") == s.(signature := "")
    ensures RotationPayload(scheme, r) == RotationPayload(scheme, s)
  {
  }

  /** Pre-rotation limits a fork: where two histories of one identity first part after the inception, the
      identity, the position, the key handing over and the address taking over are the same (or the two keys
      taking over are a SHA-256 collision); so only the next commitment or the time can differ. */
  lemma ForkIsLimited(scheme: Scheme, a: RotationChain, b: RotationChain, k: nat)
    requires Authentic(scheme, a) && Authentic(scheme, b) && a.inception.address == b.inception.address
    requires 1 <= k <= |a.rotations| && k <= |b.rotations|
    requires PayloadAt(scheme, a, k - 1) == PayloadAt(scheme, b, k - 1)
    requires PayloadAt(scheme, a, k) != PayloadAt(scheme, b, k)
    ensures
      var r, s := a.rotations[k - 1], b.rotations[k - 1];
      && r.identity == s.identity
      && r.sequence == s.sequence == k
      && r.previous == s.previous
      && (r.nextAddress == s.nextAddress || KeysCollide(scheme, r.nextAddress, s.nextAddress))
      && (r.nextAddress == s.nextAddress ==> r.nextCommitment != s.nextCommitment || r.rotatedAt != s.rotatedAt)
  {
    hide RotationVerifies, InceptionVerifies, CommitmentForAddress, RotationPayload, InceptionPayload, KeysCollide;
    var r, s := a.rotations[k - 1], b.rotations[k - 1];
    PayloadFixesState(scheme, a, b, k - 1);
    if r.(signature := "") == s.(signature := "") {
      PayloadCovers(scheme, r, s);
    }
    assert Follows(scheme, StateAt(a, k - 1), r) && Follows(scheme, StateAt(b, k - 1), s);
    CommitmentAdmitsOneAddress(scheme, r.nextAddress, s.nextAddress, Standing(a, k - 1));
  }

  // ----- an identity that rotates -----

  /** Holds the secret keys of the key in force and of the committed next key. */
  datatype RotatingIdentity = RotatingIdentity(identity: string, keys: Bytes, nextKeys: Bytes, chain: RotationChain)

  function AddressOf(scheme: Scheme, keys: Bytes): Option<string> {
    Base58.AddressFromSigningKey(scheme.publicKey(keys))
  }

  function CreateInception(scheme: Scheme, keys: Bytes, nextCommitment: string, now: int): Option<Inception> {
    match AddressOf(scheme, keys)
    case None => None
    case Some(address) =>
      var unsigned := Inception(address, nextCommitment, now, "");
      match SignPayload(scheme, keys, CONTEXT_INCEPTION, InceptionPayload(scheme, unsigned))
      case None => None
      case Some(signature) => Some(unsigned.(signature := signature))
  }

  function CreateRotation(scheme: Scheme, keys: Bytes, identity: string, sequence: int, nextAddress: string,
                          nextCommitment: string, now: int): Option<KeyRotation>
  {
    match AddressOf(scheme, keys)
    case None => None
    case Some(previous) =>
      if sequence < 1 then None
      else
        var unsigned := KeyRotation(identity, sequence, previous, nextAddress, nextCommitment, now, "");
        match SignPayload(scheme, keys, CONTEXT_KEY_ROTATION, RotationPayload(scheme, unsigned))
        case None => None
        case Some(signature) => Some(unsigned.(signature := signature))
  }

  function Create(scheme: Scheme, keys: Bytes, nextKeys: Bytes, now: int): Option<RotatingIdentity> {
    match KeyCommitment(scheme, scheme.publicKey(nextKeys))
    case None => None
    case Some(commitment) =>
      match CreateInception(scheme, keys, commitment, now)
      case None => None
      case Some(inception) =>
        Some(RotatingIdentity(inception.address, keys, nextKeys, RotationChain(inception, [])))
  }

  function Rotate(scheme: Scheme, id: RotatingIdentity, followingKeys: Bytes, now: int): Option<RotatingIdentity> {
    var following := KeyCommitment(scheme, scheme.publicKey(followingKeys));
    match (AddressOf(scheme, id.nextKeys), Replay(scheme, id.chain), following)
    case (Some(nextAddress), Some(state), Some(commitment)) =>
      (match CreateRotation(scheme, id.keys, id.identity, state.sequence + 1, nextAddress, commitment, now)
       case None => None
       case Some(rotation) =>
         var extended := Append(id.chain, rotation);
         if Authentic(scheme, extended) then Some(RotatingIdentity(id.identity, id.nextKeys, followingKeys, extended))
         else None)
    case _ => None
  }

  datatype Promotion = Promotion(followingKeys: Bytes, now: int)

  /** The history of one identity: created, then rotated once per promotion. */
  function Life(scheme: Scheme, keys: Bytes, nextKeys: Bytes, now: int,
                promotions: seq<Promotion>): Option<RotatingIdentity>
  {
    if promotions == [] then Create(scheme, keys, nextKeys, now)
    else
      var last := |promotions| - 1;
      match Life(scheme, keys, nextKeys, now, promotions[..last])
      case None => None
      case Some(id) => Rotate(scheme, id, promotions[last].followingKeys, promotions[last].now)
  }

  /** Its chain replays to its own keys: the key in force, and a commitment to the next one. */
  ghost predicate Coherent(scheme: Scheme, id: RotatingIdentity, rotated: nat) {
    && Authentic(scheme, id.chain)
    && |id.chain.rotations| == rotated
    && Head(id.chain).identity == id.identity
    && AddressOf(scheme, id.keys) == Some(Head(id.chain).currentAddress)
    && KeyCommitment(scheme, scheme.publicKey(id.nextKeys)) == Some(Head(id.chain).nextCommitment)
  }

  lemma SignIsAccepted(scheme: Scheme, keys: Bytes, context: string, payload: Json)
    requires DomainTag(context).Some?
    ensures SignPayload(scheme, keys, context, payload).Some?
  {
  }

  lemma CreatedInceptionSays(scheme: Scheme, keys: Bytes, nextCommitment: string, now: int)
    requires AddressOf(scheme, keys).Some?
    ensures
      var inception := CreateInception(scheme, keys, nextCommitment, now);
      && inception.Some?
      && Some(inception.value.address) == AddressOf(scheme, keys)
      && inception.value.nextCommitment == nextCommitment && inception.value.createdAt == now
      && Some(inception.value.signature) ==
         SignPayload(scheme, keys, CONTEXT_INCEPTION, InceptionPayload(scheme, inception.value))
  {
    var unsigned := Inception(AddressOf(scheme, keys).value, nextCommitment, now, "");
    ContextAccepted(CONTEXT_INCEPTION);
    SignIsAccepted(scheme, keys, CONTEXT_INCEPTION, InceptionPayload(scheme, unsigned));
    hide AddressOf, SignPayload, DomainTag;
    var signature := SignPayload(scheme, keys, CONTEXT_INCEPTION, InceptionPayload(scheme, unsigned));
    assert InceptionPayload(scheme, unsigned.(signature := signature.value)) == InceptionPayload(scheme, unsigned);
  }

  lemma CreatedInceptionVerifies(scheme: Scheme, keys: Bytes, nextCommitment: string, now: int)
    requires Correct(scheme) && AddressOf(scheme, keys).Some?
    ensures
      var inception := CreateInception(scheme, keys, nextCommitment, now);
      inception.Some? && InceptionVerifies(scheme, inception.value)
  {
    hide CreateInception, SignPayload, VerifyByAddress, InceptionPayload;
    CreatedInceptionSays(scheme, keys, nextCommitment, now);
    var inception := CreateInception(scheme, keys, nextCommitment, now).value;
    SignedVerifies(scheme, keys, CONTEXT_INCEPTION, InceptionPayload(scheme, inception));
  }

  lemma CreateIsCoherent(scheme: Scheme, keys: Bytes, nextKeys: Bytes, now: int)
    requires Correct(scheme)
    ensures
      var id := Create(scheme, keys, nextKeys, now);
      && id.Some? && Coherent(scheme, id.value, 0)
      && AddressOf(scheme, keys) == Some(id.value.identity)
      && id.value.keys == keys && id.value.nextKeys == nextKeys
      && id.value.chain.inception.createdAt == now
  {
    KeysAreSized(scheme, nextKeys);
    KeysAreSized(scheme, keys);
    var commitment := KeyCommitment(scheme, scheme.publicKey(nextKeys)).value;
    assert AddressOf(scheme, keys).Some?;
    hide CreateInception, InceptionVerifies, AddressOf, Correct, KeyCommitment;
    CreatedInceptionSays(scheme, keys, commitment, now);
    CreatedInceptionVerifies(scheme, keys, commitment, now);
  }

  lemma KeysAreSized(scheme: Scheme, keys: Bytes)
    requires Correct(scheme)
    ensures |scheme.publicKey(keys)| == 32
  {
    assert scheme.verifies(scheme.publicKey(keys), [], scheme.sign(keys, []));
  }

  lemma CreatedRotationFollows(scheme: Scheme, state: RotationState, keys: Bytes, nextKeys: Bytes,
                               rotation: KeyRotation)
    requires |scheme.publicKey(nextKeys)| == 32
    requires AddressOf(scheme, keys) == Some(state.currentAddress) && RotationVerifies(scheme, rotation)
    requires KeyCommitment(scheme, scheme.publicKey(nextKeys)) == Some(state.nextCommitment)
    requires rotation.identity == state.identity && rotation.sequence == state.sequence + 1
    requires rotation.previous == state.currentAddress && Some(rotation.nextAddress) == AddressOf(scheme, nextKeys)
    ensures Follows(scheme, state, rotation)
  {
    hide InceptionVerifies, RotationVerifies, CommitmentForAddress, KeyCommitment, AddressOf;
    AddressCommits(scheme, nextKeys);
  }

  lemma RotateIsCoherent(scheme: Scheme, id: RotatingIdentity, rotated: nat, followingKeys: Bytes, now: int)
    requires Correct(scheme) && Coherent(scheme, id, rotated)
    ensures
      var next := Rotate(scheme, id, followingKeys, now);
      && next.Some? && Coherent(scheme, next.value, rotated + 1)
      && next.value.identity == id.identity
      && next.value.keys == id.nextKeys && next.value.nextKeys == followingKeys
  {
    KeysAreSized(scheme, id.nextKeys);
    KeysAreSized(scheme, followingKeys);
    HeadSequence(id.chain);
    AddressCommits(scheme, id.nextKeys);
    var nextAddress := AddressOf(scheme, id.nextKeys).value;
    var commitment := KeyCommitment(scheme, scheme.publicKey(followingKeys)).value;
    var created := CreateRotation(scheme, id.keys, id.identity, rotated + 1, nextAddress, commitment, now);
    CreatedRotationVerifies(scheme, id.keys, id.identity, rotated + 1, nextAddress, commitment, now);
    CreatedRotationSays(scheme, id.keys, id.identity, rotated + 1, nextAddress, commitment, now);
    hide Correct, RotationVerifies, Authentic, CreateRotation, AddressOf, KeyCommitment, Follows, Head, Append;
    CreatedRotationFollows(scheme, Head(id.chain), id.keys, id.nextKeys, created.value);
    ExtendIsOneStep(scheme, id.chain, created.value);
    AppendLength(id.chain, created.value);
  }

  /** Rotating keeps every earlier record and adds one, made now. */
  lemma RotateAppends(scheme: Scheme, id: RotatingIdentity, followingKeys: Bytes, now: int)
    requires Rotate(scheme, id, followingKeys, now).Some?
    ensures
      var chain := Rotate(scheme, id, followingKeys, now).value.chain;
      && chain.inception == id.chain.inception
      && |chain.rotations| == |id.chain.rotations| + 1
      && chain.rotations[..|id.chain.rotations|] == id.chain.rotations
      && chain.rotations[|id.chain.rotations|].rotatedAt == now
  {
    hide AddressOf, Replay, KeyCommitment, Authentic, RotationPayload, SignPayload;
  }

  lemma AppendLength(chain: RotationChain, rotation: KeyRotation)
    ensures |Append(chain, rotation).rotations| == |chain.rotations| + 1
  {
  }

  lemma HeadSequence(chain: RotationChain)
    ensures Head(chain).sequence == |chain.rotations| && Head(chain).identity == chain.inception.address
  {
  }

  lemma CreatedRotationSays(scheme: Scheme, keys: Bytes, identity: string, sequence: int, nextAddress: string,
                            nextCommitment: string, now: int)
    requires sequence >= 1 && AddressOf(scheme, keys).Some?
    ensures
      var rotation := CreateRotation(scheme, keys, identity, sequence, nextAddress, nextCommitment, now);
      && rotation.Some?
      && rotation.value.identity == identity && rotation.value.sequence == sequence
      && Some(rotation.value.previous) == AddressOf(scheme, keys)
      && rotation.value.nextAddress == nextAddress && rotation.value.nextCommitment == nextCommitment
      && rotation.value.rotatedAt == now
  {
    var previous := AddressOf(scheme, keys).value;
    var unsigned := KeyRotation(identity, sequence, previous, nextAddress, nextCommitment, now, "");
    ContextAccepted(CONTEXT_KEY_ROTATION);
    SignIsAccepted(scheme, keys, CONTEXT_KEY_ROTATION, RotationPayload(scheme, unsigned));
    hide AddressOf, RotationPayload, SignPayload;
  }

  lemma AddressCommits(scheme: Scheme, keys: Bytes)
    requires |scheme.publicKey(keys)| == 32
    ensures AddressOf(scheme, keys).Some?
    ensures CommitmentForAddress(scheme, AddressOf(scheme, keys).value) == KeyCommitment(scheme, scheme.publicKey(keys))
  {
    Base58.AddressesNameKeys(AddressOf(scheme, keys).value, scheme.publicKey(keys));
  }

  lemma CreatedRotationVerifies(scheme: Scheme, keys: Bytes, identity: string, sequence: int, nextAddress: string,
                                nextCommitment: string, now: int)
    requires Correct(scheme) && sequence >= 1
    ensures
      var rotation := CreateRotation(scheme, keys, identity, sequence, nextAddress, nextCommitment, now);
      rotation.Some? && RotationVerifies(scheme, rotation.value)
  {
    KeysAreSized(scheme, keys);
    CreatedRotationSays(scheme, keys, identity, sequence, nextAddress, nextCommitment, now);
    var rotation := CreateRotation(scheme, keys, identity, sequence, nextAddress, nextCommitment, now).value;
    assert RotationPayload(scheme, rotation) == RotationPayload(scheme, rotation.(signature := ""));
    SignedVerifies(scheme, keys, CONTEXT_KEY_ROTATION, RotationPayload(scheme, rotation));
  }

  /** Rotation never gets stuck: every promotion succeeds, and after n of them the chain resolves at sequence n
      to the newest promoted key, still under the name it was born with. */
  lemma {:induction false} RotationNeverGetsStuck(scheme: Scheme, keys: Bytes, nextKeys: Bytes, now: int,
                                                  promotions: seq<Promotion>)
    requires Correct(scheme)
    ensures
      var id := Life(scheme, keys, nextKeys, now, promotions);
      var n := |promotions|;
      && id.Some? && Coherent(scheme, id.value, n)
      && AddressOf(scheme, keys) == Some(id.value.identity)
      && id.value.nextKeys == (if n == 0 then nextKeys else promotions[n - 1].followingKeys)
      && id.value.keys ==
         (if n == 0 then keys else if n == 1 then nextKeys else promotions[n - 2].followingKeys)
  {
    if promotions == [] {
      CreateIsCoherent(scheme, keys, nextKeys, now);
    } else {
      var last := |promotions| - 1;
      RotationNeverGetsStuck(scheme, keys, nextKeys, now, promotions[..last]);
      var id := Life(scheme, keys, nextKeys, now, promotions[..last]).value;
      RotateIsCoherent(scheme, id, last, promotions[last].followingKeys, promotions[last].now);
    }
  }
}
