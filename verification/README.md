# fg-agent-id: verified model

fg-agent-id gives software agents self-certifying addresses (the base58 text of an Ed25519 key), histories of key
rotations under pre-rotation commitments, delegation chains with revocation, spend limits carried in delegation scopes,
and single-use login challenges. This project models the logic of its Python package (`src/fg_agent_id`) and of its
TypeScript port (`js/src`), and proves what the two promise about it.

| Files | Models | Main results |
|---|---|---|
| `Base58`, `Base64` (over `Positional`, `Alphabets`) | the hand-written codecs and the address format | bijections; the 32-bit accumulator emits what an unbounded one would; one accepted spelling per signature |
| `CanonicalJson`, `Signing`, `Text` | canonical JSON, UTF-8, domain-separated signing input | one text per value and one value per text, key order aside; one input per (context, payload); inputs show their own end |
| `Crypto` | the foreign primitives as parameters, and the checks built on them | what a key signs verifies against its own address, and nothing else does |
| `Rotation` | inceptions, rotations, replay, identities that rotate | forks are limited by pre-rotation; rotation never gets stuck |
| `RotationRegistry`, `RegistryHistory`, `RegistryPersistence` | the registry as a class; every run of `learn`; every interleaving of `learn` with restores of agreeing snapshots | the verdict is a function of the valid chains presented for the identity; evidence is sound; exactly when a flagged identity advances; restore is merge |
| `Delegation`, `Chains` | grants, digests, chain verification, owner recall | the digest identifies the grant; what acceptance and recall mean, exactly; acceptance composes; the time window is exact; recall is always available, to the owner alone |
| `Feed`, `RevocationHistory` | the revocation registry and the producer's feed as classes; every interleaving of producer and consumer | replication is exact; deltas fail safely; revocation is irreversible |
| `Amounts`, `SpendScopes`, `SpendAuthority` | exact decimals, the spend grammar, composition of caps | agreement with rational arithmetic; grammar round trips; approval is exact; runs stay within every cap |
| `ChallengeStore` (and its module `ChallengeHistory`) | the lazily pruned store as a class; every interleaving of its operations | consuming and counting are functions of the history; each challenge is returned at most once |
| `Vectors` | the published conformance vectors of the encoders | the printed and encoded forms they fix |

## How the source is rendered

- A raised error is `None`; which exception it is, and its message, are not kept apart.
- Objects whose methods update their fields are classes (`RotationRegistry`, `RevocationRegistry`, `RevocationFeed`,
  `InMemoryChallengeStore`); each method states its whole new state, by a function of the old one, and the theorems over
  runs are about those functions. Frozen records are datatypes.
- A method under a lock is one step. `learn` verifies its chain before it takes the lock, so a whole call is one step of
  the registry. Issuing a challenge reads the clock before it takes the lock, so that is two events, with anything in
  between. A sync is a fetch and an application, with appends in between, and a fetched delta may be lost.
- Ed25519, SHA-256 and the text of a timestamp are a parameter (`Crypto.Scheme`) of every function. Sign-then-verify
  (`Correct`) and absence of collisions (`CollisionFree`) are hypotheses of exactly the lemmas that name them, and
  `Crypto.HypothesesAreConsistent` gives a scheme that meets both; the fork lemma instead names the one collision that
  would break it. Timestamps are integers, and two instants with one text are
  not told apart by a payload.
- Strings are sequences of code points, as in Python. Both languages agree on them for NFC-stable text without lone
  surrogates.
- Shifts and masks are written as multiplication, division and remainder, and the base64 decoder's accumulator is
  reduced to a signed 32-bit register after every assignment, as JavaScript does.
- A JSON object is a sequence of fields in insertion order; a value is well formed when no object repeats a key.
- A feed entry's record, which travels as JSON, is represented by what it parses to as each kind of record.
- The clock, secret keys and challenges (identifier, nonce) are arguments.

Where the documentation and the code differ, the code is followed:

- A feed consumer with any corrupted cursor is said to converge (`src/fg_agent_id/feed.py:115-118`). A negative cursor on
  a non-empty log makes every sync raise; `RevocationHistory.SyncSucceeds` states exactly when a sync succeeds.
- A conflicting chain is said to stop the registry from advancing (`src/fg_agent_id/rotation.py:381-384`). The conflicting
  call itself is refused, but a flagged identity still advances on a later chain: `RegistryHistory.FlaggedIdentityAdvances`
  gives such a run, and `RegistryHistory.StateAfterLearn` and `RegistryHistory.AdvancesExactly` the exact condition, that
  the chain agrees with the history held and is longer. Only `resolve` fails closed.
- The spend grammar is documented with the transaction cap first (`js/src/spend.ts:10`), but the parser takes either order
  and the printer puts the transaction cap first; `SpendScopes.RenderInvertsParse` states exactly when the text survives.
- Strict base64 decoding alone leaves several spellings of one byte string (`Base64.StrictDecodingIsNotInjective`); the
  re-encoding check of `decodeSignature` is what removes them.

## Model

| member | source | states |
|---|---|---|
| `Base58.EncodeByDivision` | js/src/base58.ts:5-19 | The encoder's repeated division computes the change of base from 256 to 58 with one leading `1` for each leading zero byte. |
| `Base58.DecodeByDivision` | js/src/base58.ts:21-39 | The TypeScript decoder computes the inverse change of base, and fails exactly on a character outside the alphabet. |
| `Base58.DecodeByBitLength` | src/fg_agent_id/keys.py:70-81 | The Python decoder, which sizes its output from the bit length, computes the same bytes and fails on the same texts. |
| `Base58.DecodeInvertsEncode` | src/fg_agent_id/keys.py:55-81 | decode(encode(b)) = b for every byte sequence, with leading zeros, all-zero and empty inputs included. |
| `Base58.EncodeInvertsDecode` | src/fg_agent_id/keys.py:55-81 | A text decodes exactly when it is over the alphabet, and encode(decode(s)) = s for each such text. |
| `Base58.AddressesNameKeys` | src/fg_agent_id/address.py:15-30 | An address decodes to a key exactly when it is the address built from that key: one address per 32-byte key. |
| `Base64.EncodeByGroups` | js/src/bytes.ts:38-49 | The index loop computes section 4 of RFC 4648, padding included. |
| `Base64.DecodeByAccumulator` | js/src/bytes.ts:52-70 | The decoder accepts exactly the padded groups of the alphabet, and computes the bytes the symbols carry. |
| `Base64.DecodeLoop` | js/src/bytes.ts:56-69 | The loop with the never-masked 32-bit accumulator emits the bytes an unbounded accumulator would, and fills its output exactly. |
| `Base64.DecodeInvertsEncode` | js/src/bytes.ts:38-70 | decode(encode(b)) = b for every byte sequence. |
| `Base64.CanonicalSpelling` | js/src/bytes.ts:51-70 | A decodable text is the encoding of its bytes exactly when its unused bits are zero (section 3.5 of RFC 4648). |
| `Base64.StrictDecodingIsNotInjective` | src/fg_agent_id/signing.py:68-74 | Two different texts that strict decoding maps to the same bytes. |
| `Base64.OneSpellingPerSignature` | js/src/signing.ts:57-68 | A signature text is accepted as given bytes exactly when it is their encoding: one accepted spelling each, nothing else accepted. |
| `CanonicalJson.CompareCodePoints` | js/src/canonical.ts:25-38 | The iterator loop returns a negative number exactly when the first string comes first in code point order (it ends, or has the lesser code point, at the first difference), a positive one exactly when the second does, and 0 on equal strings. |
| `CanonicalJson.CompareDiffers` | js/src/canonical.ts:34-36 | Where two strings first differ the result is the difference of the two code points, first minus second. |
| `CanonicalJson.ComparePrefix` | js/src/canonical.ts:31-33 | A proper prefix compares as -1, and the longer string as 1. |
| `CanonicalJson.CompareMeans` | js/src/canonical.ts:23-38 | The comparison is code point order, in both directions and on equality. |
| `CanonicalJson.CompareIsTotal` | js/src/canonical.ts:23-38 | The comparison is antisymmetric and zero exactly on equal strings. |
| `CanonicalJson.CompareIsTransitive` | js/src/canonical.ts:23-38 | The comparison is transitive, so it is a strict total order. |
| `CanonicalJson.SortIsDetermined` | js/src/canonical.ts:88-90 | Any sorted rearrangement of fields with distinct keys is the one the model's sort returns, so the sorting algorithm is immaterial. |
| `CanonicalJson.SortAscends` | js/src/canonical.ts:88-90 | Printed keys ascend in code point order. |
| `CanonicalJson.RecordText` | js/src/canonical.ts:87-96 | The exact text of an object whose keys need no escapes: its entries in ascending key order, quoted, with colons and commas. |
| `CanonicalJson.ReadInvertsEscape` | js/src/canonical.ts:40-50 | A reader of JSON strings (section 7 of RFC 8259) recovers every string from its escaped form. |
| `CanonicalJson.EscapesAreShort` | js/src/canonical.ts:41-44 | Only quotes, backslashes and control characters are escaped, by the two-character form where there is one and six characters with lower-case digits otherwise. |
| `CanonicalJson.TextIgnoresKeyOrder` | js/src/canonical.ts:84-98 | Values equal up to key order at every depth have one canonical text. |
| `CanonicalJson.TextInjective` | js/src/canonical.ts:73-98 | Equal canonical text means equal values up to key order. |
| `CanonicalJson.OneTextPerValue` | js/src/canonical.ts:48-98 | Canonical texts agree exactly when the values do, key order aside. |
| `CanonicalJson.BracketEnds` | js/src/canonical.ts:84-96 | An array or object text shows its own end: two of them followed by anything agree only if both the texts and what follows do. |
| `Signing.Utf8Injective` | js/src/bytes.ts:14-16 | UTF-8 is injective on code point sequences. |
| `Signing.CharBytes` | js/src/bytes.ts:14-16 | Each code point is encoded by section 3 of RFC 3629: lead byte range, six bits from each continuation byte, shortest form. |
| `Signing.OneInputPerArtifact` | js/src/signing.ts:29-41 | Signing inputs are equal exactly when the contexts are and, key order aside, the payloads are. |
| `Signing.InputLayout` | js/src/signing.ts:29-41 | The input is rejected exactly when the context is empty or its tag is over 65535 bytes; else it is the length of `fg-agent-id/v1/<context>` in two bytes, high byte first, that tag, and the canonical JSON. |
| `Signing.ObjectInputEnds` | src/fg_agent_id/delegation.py:139-140 | The signing input of an object payload is separable from bytes appended to it, which the delegation digest relies on. |
| `Crypto.SignedVerifies` | src/fg_agent_id/signing.py:60-99 | Signing succeeds exactly under a context whose tag is accepted, and what a key signs verifies against the address of that key. |
| `Crypto.VerdictIsTheKeys` | src/fg_agent_id/signing.py:85-99 | Verifying by the address of a key, under an accepted context, is the verdict of that key on the signing input and the decoded signature: what it did not sign is refused. |
| `Crypto.VerifyMeans` | src/fg_agent_id/signing.py:65-99 | Exactly those signatures are accepted that are the encoding of bytes which verify under the key the address was built from. |
| `Rotation.Resolve` | src/fg_agent_id/rotation.py:261-303 | Replay succeeds exactly when the inception verifies and every rotation names the identity, follows in sequence, is by the key in force, reveals the committed key and is signed; it returns the last state. |
| `Rotation.CheckFollows` | src/fg_agent_id/rotation.py:272-293 | The checks of one iteration pass exactly when the rotation may follow the state reached. |
| `Rotation.RecordsMean` | src/fg_agent_id/rotation.py:115-119 | An inception verifies exactly when its address's key signed its payload under `inception`, and a rotation when the outgoing key signed its payload under `key-rotation`. |
| `Rotation.InceptionPayloadCovers` | src/fg_agent_id/rotation.py:96-101 | An inception's payload changes exactly when its address, commitment or time does. |
| `Rotation.InceptionText` | src/fg_agent_id/rotation.py:96-101 | The exact text an inception signs. |
| `Rotation.RotationPayloadCovers` | src/fg_agent_id/rotation.py:166-174 | A rotation's payload changes exactly when its identity, sequence, outgoing or incoming address, commitment or time does. |
| `Rotation.RotationText` | src/fg_agent_id/rotation.py:166-174 | The exact text a rotation signs. |
| `Rotation.Extend` | src/fg_agent_id/rotation.py:310-314 | Extending returns the chain with the rotation appended exactly when that chain replays. |
| `Rotation.ExtendIsOneStep` | src/fg_agent_id/rotation.py:272-314 | The extended chain is valid exactly when the chain is and the rotation follows from where it stands; the new state is the rotation's. |
| `Rotation.PrefixIsAuthentic` | src/fg_agent_id/rotation.py:261-303 | Every prefix of a valid chain is valid and stands where the chain stood at that point. |
| `Rotation.CommitmentAdmitsOneAddress` | src/fg_agent_id/rotation.py:76-78 | Two addresses that satisfy one commitment are the same, or their keys are a digest collision. |
| `Rotation.CommitmentIs` | src/fg_agent_id/rotation.py:65-78 | An address satisfies a commitment exactly when the commitment is the digest of the 32-byte key the address was built from. |
| `Rotation.ForkIsLimited` | src/fg_agent_id/rotation.py:272-296 | Where two histories of one identity first part after the inception, identity, sequence, previous and next address agree (short of a named collision), so only the next commitment or the time differs. |
| `Rotation.CreateIsCoherent` | src/fg_agent_id/rotation.py:547-557 | A created identity's chain replays at sequence 0 to its own key, with a commitment to its next key. |
| `Rotation.RotateIsCoherent` | src/fg_agent_id/rotation.py:564-580 | Rotating always succeeds, adds one step, promotes the next key, keeps the name, and commits to the following key. |
| `Rotation.RotateAppends` | src/fg_agent_id/rotation.py:564-580 | Rotating keeps the inception and every earlier rotation, and adds one made now. |
| `Rotation.RotationNeverGetsStuck` | src/fg_agent_id/rotation.py:547-580 | After any n rotations with any following keys the chain resolves at sequence n to the identity's current key, under the name it was created with. |
| `RotationRegistry.FirstConflict` | src/fg_agent_id/rotation.py:398-403 | The least step whose recorded fingerprint differs, or that there is none. |
| `RotationRegistry.RotationRegistry.Learn` | src/fg_agent_id/rotation.py:378-426 | The class's `learn` changes its three dictionaries, and answers, exactly as the specification step does. |
| `RotationRegistry.RotationRegistry.Advance` | src/fg_agent_id/rotation.py:422-426 | The state is adopted exactly when it is further along, and the state then known is returned. |
| `RotationRegistry.RotationRegistry.FindConflict` | src/fg_agent_id/rotation.py:398-403 | The scan stops at the first conflicting step. |
| `RotationRegistry.RotationRegistry.RecordEvidence` | src/fg_agent_id/rotation.py:409-413 | Evidence gains the record unless it is already listed; everything else stays. |
| `RotationRegistry.RotationRegistry.WriteSeen` | src/fg_agent_id/rotation.py:419-420 | Every step's fingerprint is written, and nothing else. |
| `RotationRegistry.RotationRegistry.ResolveIdentity` | src/fg_agent_id/rotation.py:428-450 | Refuses a duplicitous identity, else the known current address, else the identity itself. |
| `RotationRegistry.RotationRegistry.TakeSnapshot` | src/fg_agent_id/rotation.py:468-493 | A fresh registry restored from the snapshot agrees with this one on every state, every fingerprint and every flag; only the evidence lists are lost. |
| `RotationRegistry.RotationRegistry.RestoreFrom` | src/fg_agent_id/rotation.py:495-530 | Restoring merges states by sequence, fingerprints of version 2 and above, and duplicity flags. |
| `RotationRegistry.RotationRegistry.RestoreStates` | src/fg_agent_id/rotation.py:501-510 | The loop adopts each saved state exactly where it is further along. |
| `RotationRegistry.RotationRegistry.RestoreDuplicity` | src/fg_agent_id/rotation.py:529-530 | The loop flags each identity, keeping the evidence already listed. |
| `RegistryHistory.InvariantOfRun` | src/fg_agent_id/rotation.py:378-426 | In every registry reached by learning, an identity's fingerprints are exactly steps 0..n of one presented chain, its state is that chain's, and all evidence departs from it. |
| `RegistryHistory.VerdictOfRun` | src/fg_agent_id/rotation.py:378-450 | `resolve` raises exactly when two presented valid chains differ at a common step; it returns the identity when none was presented, and otherwise the current address of a longest one. |
| `RegistryHistory.OrderIsImmaterial` | src/fg_agent_id/rotation.py:378-450 | Two runs that present the same valid chains for an identity give the same verdict on it, whatever the order, the repetition, the invalid chains and the chains of other identities. |
| `RegistryHistory.FingerprintFixesState` | src/fg_agent_id/rotation.py:358-376 | Equal fingerprints at a step mean the same key in force and the same standing commitment after it. |
| `RegistryHistory.FingerprintLayout` | src/fg_agent_id/rotation.py:358-376 | A fingerprint is the digest of the signing input of the record, under `inception` or `key-rotation`. |
| `RegistryHistory.FingerprintIdentifiesRecord` | src/fg_agent_id/rotation.py:358-376 | Two records have one fingerprint exactly when they are of one kind and agree in every field but the signature, the time included. |
| `RegistryHistory.RefusesDifferingRecords` | src/fg_agent_id/rotation.py:378-450 | `resolve` refuses exactly the identities for which two presented valid chains have records at one step that differ in any field but the signature. |
| `RegistryHistory.EvidenceIsSound` | src/fg_agent_id/rotation.py:389-417 | Every listed record is step k of a presented chain, and has an accepted counterpart at the same sequence k with a different fingerprint, both validly signed by the same key; no record is listed twice. |
| `RegistryHistory.StateAfterLearn` | src/fg_agent_id/rotation.py:397-426 | On a registry that holds l, flagged or not, learning a valid chain advances the state exactly when the chain agrees with l and is longer, and raises and flags exactly when it disagrees; nothing else changes the state. |
| `RegistryHistory.AdvancesExactly` | src/fg_agent_id/rotation.py:378-426 | Over any further run from a registry that holds l, flagged or not, the state moves on exactly when one of the chains presented agrees with l and is longer; otherwise l is still held. |
| `RegistryHistory.FlaggedIdentityAdvances` | src/fg_agent_id/rotation.py:381-426 | Under every scheme, a history, a second inception by the same key and the history's own next rotation leave the identity flagged and its state advanced, while `resolve` refuses. |
| `RegistryPersistence.AlikeForever` | src/fg_agent_id/rotation.py:378-460 | Registries that agree except for evidence lists answer every later sequence of learn, resolve, state and is_duplicitous calls alike. |
| `RegistryPersistence.RestoreIsFaithful` | src/fg_agent_id/rotation.py:473-530 | A snapshot restored into a fresh registry answers every later sequence of calls as the original does. |
| `RegistryPersistence.RestoreIsMerge` | src/fg_agent_id/rotation.py:495-530 | Restoring a snapshot whose fingerprints agree on shared keys is, evidence lists aside, having learned both sets of chains. |
| `RegistryPersistence.OldSnapshotKeepsLearning` | src/fg_agent_id/rotation.py:501-530 | Restoring a snapshot older than version 2 keeps all fingerprints as they were, adds its flags, never moves a state back, and changes nothing in which chains `learn` accepts. |
| `RegistryPersistence.HistoryIsRun` | src/fg_agent_id/rotation.py:378-530 | After any interleaving of learning and restoring, with snapshots of registries that have such histories themselves and agree on shared keys, the registry is, evidence lists aside, the one that learned all the chains involved. |
| `RegistryPersistence.HistoryAnswers` | src/fg_agent_id/rotation.py:378-530 | After any such interleaving every later sequence of calls is answered as after learning those chains. |
| `RegistryPersistence.HistoryVerdict` | src/fg_agent_id/rotation.py:428-530 | After any such interleaving `resolve` refuses exactly when two of the chains, learned or restored, differ at a step, and otherwise answers as a run of learning them does. |
| `Delegation.OrderedPrecedes` | src/fg_agent_id/delegation.py:95-102 | The scopes and critical names in the payload ascend in code point order, repetitions side by side. |
| `Delegation.PayloadFields` | src/fg_agent_id/delegation.py:91-104 | A constructible grant's payload lists its core fields, `critical` when there is any, and its extensions, and repeats no name. |
| `Delegation.PayloadValues` | src/fg_agent_id/delegation.py:91-104 | Each name in the payload carries the grant's own value, scopes and critical names sorted, and every extension field is included. |
| `Delegation.PayloadIdentifies` | src/fg_agent_id/delegation.py:91-104 | Two payloads are the same exactly when the grants are. |
| `Delegation.DumpIdentifies` | src/fg_agent_id/delegation.py:185-187 | Two dumps are the same exactly when the grants and their signatures are. |
| `Delegation.RevocationPayloadCovers` | src/fg_agent_id/delegation.py:239-244 | A revocation's payload changes exactly when its issuer, digest or time does. |
| `Delegation.RevocationText` | src/fg_agent_id/delegation.py:239-244 | The exact text a revocation signs. |
| `Delegation.KeyRevocationPayloadCovers` | src/fg_agent_id/delegation.py:311-321 | A key revocation's payload changes exactly when its address, issuer, time or any grant or signature in its proof chain does. |
| `Delegation.KeyRevocationText` | src/fg_agent_id/delegation.py:311-321 | The exact text a key revocation signs. |
| `Delegation.DigestIdentifiesGrant` | src/fg_agent_id/delegation.py:130-140 | Two digests agree exactly when the signed grants and the signatures do; neither a respelled signature nor an extension field gives a grant a second digest. |
| `Chains.VerifyLink` | src/fg_agent_id/delegation.py:142-183 | A grant verifies exactly when it is in its window widened by the leeway, signed by its issuer, and every critical name is understood. |
| `Chains.Verify` | src/fg_agent_id/delegation.py:506-558 | A chain is accepted exactly when each link verifies and is not revoked, each subject issues the next link and the last is the agent; the result is the scopes every link grants, and none for the empty chain. |
| `Chains.AcceptanceMeans` | src/fg_agent_id/delegation.py:531-558 | A non-empty chain is accepted exactly when each link is signed by its issuer's key, holds the instant in its window widened by a positive leeway, has only understood critical names, a digest that is not revoked and keys that are not, and the links join up from end to end at the agent. |
| `Chains.DigestLayout` | src/fg_agent_id/delegation.py:139-140 | The digest covers the signing input followed by the decoded signature. |
| `Chains.RevokedDigestIsRejected` | src/fg_agent_id/delegation.py:539-542 | A chain holding a grant whose digest is revoked is rejected on any terms. |
| `Chains.OtherRevocationsDoNotMatter` | src/fg_agent_id/delegation.py:539-547 | When no revoked digest or key is of the chain, acceptance is what it is with nothing revoked. |
| `Chains.ScopesMean` | src/fg_agent_id/delegation.py:553-558 | A scope is effective exactly when there is a link and every link grants it. |
| `Chains.AcceptanceComposes` | src/fg_agent_id/delegation.py:531-558 | For non-empty A and B, A++B is accepted for the agent exactly when A is accepted at B's first issuer and B for the agent; its scopes are the intersection of theirs. |
| `Chains.WindowIsExact` | src/fg_agent_id/delegation.py:166-173 | With the window checked, a non-empty chain is accepted exactly when it is without the check and now lies in [latest issue - leeway, earliest expiry + leeway). |
| `Chains.RevocationOnlyRejects` | src/fg_agent_id/delegation.py:535-547 | Growing the revocation sets never turns rejection into acceptance. |
| `Chains.RevokedIsRejected` | src/fg_agent_id/delegation.py:539-547 | A chain holding a revoked grant or touching a revoked key is rejected at every time, leeway and understood set. |
| `Chains.VerifyKeyRevocation` | src/fg_agent_id/delegation.py:330-357 | A key revocation verifies exactly when signed, and by the address itself or by the root of a chain to it, with window, criticality and revocation not applied. |
| `Chains.RevocationMeans` | src/fg_agent_id/delegation.py:256-261 | A revocation verifies exactly when the key of the issuer it names signed it under `revocation`. |
| `Chains.KeyRevocationMeans` | src/fg_agent_id/delegation.py:330-357 | A key revocation verifies exactly when its issuer signed it and is the address itself, or carries an unbroken chain of signed grants that starts at the issuer and ends at the address; no other party can revoke a key. |
| `Chains.OwnerCanRecall` | src/fg_agent_id/delegation.py:330-357 | If a non-empty chain was accepted for an agent on any terms, a key revocation of that agent signed by the chain's root and carrying the chain verifies. |
| `Feed.RevocationRegistry.Add` | src/fg_agent_id/delegation.py:401-403 | Adds the digest exactly when the revocation verifies, and changes nothing otherwise. |
| `Feed.RevocationRegistry.RevokeKey` | src/fg_agent_id/delegation.py:405-407 | Adds the address exactly when the key revocation verifies, and changes nothing otherwise. |
| `Feed.RevocationRegistry.MarkSynced` | src/fg_agent_id/delegation.py:409-411 | Only the sync time changes. |
| `Feed.RevocationRegistry.Restore` | src/fg_agent_id/delegation.py:471-493 | Both sets grow by the saved ones, whatever the version; the sync time stays. |
| `Feed.RevocationFeed.Append` | src/fg_agent_id/feed.py:94-110 | A verified record is appended under the next number; any other record changes nothing. |
| `Feed.RevocationFeed.EntriesSince` | src/fg_agent_id/feed.py:112-121 | The entries numbered above the cursor, in order, with the feed's own cursor. |
| `Feed.SinceIsSuffix` | src/fg_agent_id/feed.py:112-121 | On a feed's log those entries are the suffix after the cursor, the whole log for a negative one and nothing for one from the future. |
| `Feed.CheckSequence` | src/fg_agent_id/feed.py:164-182 | The loop accepts exactly the deltas numbered since+1, since+2, and so on up to the cursor to persist. |
| `Feed.VerifiedPrefixIsLongest` | src/fg_agent_id/feed.py:183-188 | The prefix that is admitted before an abort is the longest run of leading entries that verify. |
| `Feed.AdmitEntry` | src/fg_agent_id/feed.py:184-188 | An entry is admitted exactly when its record verifies. |
| `Feed.ApplyFeedDelta` | src/fg_agent_id/feed.py:134-190 | The method leaves the registry, and returns the cursor, exactly as the specification of a delta says, aborts included. |
| `Feed.SyncRegistry` | src/fg_agent_id/feed.py:193-203 | A local sync is the application of the feed's entries since the cursor. |
| `Feed.DeltaFailsSafely` | src/fg_agent_id/feed.py:164-190 | For any delta: success means numbers since+1 up to the cursor, all verified, and exactly those records added, except that an empty delta returns its cursor unchecked; a sequence error leaves the registry untouched; a record error leaves the sync time and admits a verified proper prefix. |
| `RevocationHistory.ReplicationIsExact` | src/fg_agent_id/feed.py:94-203 | In every interleaving of appends, fetches, losses and applications from empty, the registry holds exactly the revocations of the log's first `cursor` entries, and every application of a fetched delta succeeds. |
| `RevocationHistory.SyncSucceeds` | src/fg_agent_id/feed.py:112-190 | A sync succeeds exactly when its cursor is not negative or the log is empty; it then persists the log's length. |
| `RevocationHistory.CorruptedCursorConverges` | src/fg_agent_id/feed.py:112-190 | From any non-negative cursor one sync reaches the log's, and in every later run each entry appended since is applied on top. |
| `RevocationHistory.RegistryOnlyGrows` | src/fg_agent_id/delegation.py:401-493 | No sequence of additions, restores, syncs and completed or aborted deltas removes a digest or key. |
| `RevocationHistory.AcceptedLaterAcceptedBefore` | src/fg_agent_id/delegation.py:535-547 | A chain accepted after any such sequence was accepted before it on the same terms. |
| `RevocationHistory.RevokedForever` | src/fg_agent_id/delegation.py:535-547 | A chain with a revoked grant or key is rejected after every later sequence of changes, on any terms. |
| `RevocationHistory.RevocationEndsGrant` | src/fg_agent_id/delegation.py:401-403 | Once a signed revocation naming a grant's digest is added, every chain holding the grant is rejected after every later change and on any terms. |
| `RevocationHistory.OnlyVerifiedIsAdmitted` | src/fg_agent_id/feed.py:183-188 | A change adds a digest or key only if it carries a verified record that revokes it, or restores a saved set that holds it. |
| `RevocationHistory.RecallEndsAgent` | src/fg_agent_id/delegation.py:405-407 | Once a verified key revocation is admitted, every chain through the address is rejected from then on. |
| `Amounts.ScaledIsExact` | js/src/spend.ts:64-68 | The BigInt read off an amount's padded digits is its rational value times ten to the scale. |
| `Amounts.CompareIsExact` | js/src/spend.ts:63-70 | Comparison has the sign of the difference of the rational values, at any mix of scales. |
| `Amounts.MinIsLeast` | js/src/spend.ts:72-74 | The smaller amount in its own spelling, the first of two equal ones. |
| `Amounts.SumIsExact` | js/src/spend.ts:244-255 | The text built by addition denotes the exact sum, with the wider of the two scales and no needless leading zero. |
| `Amounts.PlainTextIsUnique` | js/src/spend.ts:250-254 | There is one such text for each value and scale. |
| `Amounts.AddIsExact` | js/src/spend.ts:243-255 | Addition returns the plain text of the exact sum, and fails exactly when that text exceeds 40 characters. |
| `SpendScopes.AssetGrammar` | js/src/spend.ts:34-35 | The asset tokens are exactly those of the source's regular expression, unfolded from the right. |
| `SpendScopes.AssetCharacters` | js/src/spend.ts:34-35 | The characters of a token and its separators, by code point. |
| `SpendScopes.SpendScopesStart` | js/src/spend.ts:127-130 | A scope is in the spend grammar's name exactly when it is `pay` or begins with `pay:`. |
| `SpendScopes.ParseSpendScope` | js/src/spend.ts:133-163 | The parser's loop returns the scope the grammar says the text spells, and fails exactly when it spells none. |
| `SpendScopes.SpellsOne` | js/src/spend.ts:132-163 | A text spells at most one scope. |
| `SpendScopes.ParseAccepts` | js/src/spend.ts:133-163 | Accepted texts are exactly `pay`, an asset token, and cap segments with at most one of each kind, in either order. |
| `SpendScopes.RenderedText` | js/src/spend.ts:103-109 | The printed text is `pay:` and the asset, then `:tx<=` and `:total<=` with the caps that are set, in that order. |
| `SpendScopes.ParseInvertsRender` | js/src/spend.ts:104-163 | parse(render(s)) = s, spelling preserved, exactly for the scopes whose asset is a token. |
| `SpendScopes.RenderInvertsParse` | js/src/spend.ts:104-163 | render(parse(t)) = t exactly when t lists the transaction cap before the total cap. |
| `SpendAuthority.SpendAuthorityFor` | js/src/spend.ts:167-179 | Fails exactly when some `pay` scope does not parse; otherwise the least caps of the scopes for the asset, or none when there are none. |
| `SpendAuthority.GrantsAre` | js/src/spend.ts:172-176 | The grants that count are exactly those spelled by some scope and over the asset. |
| `SpendAuthority.MeetJoin` | js/src/spend.ts:85-89 | Intersecting the compositions of two lists of grants gives the composition of the joined list. |
| `SpendAuthority.MeetIsUnique` | js/src/spend.ts:112-124 | The grants determine their composition, down to the spelling of each cap. |
| `SpendAuthority.ComposeSpendAuthority` | js/src/spend.ts:183-196 | The first link that does not grant the asset decides between an error and no authority; without one, the result is the least caps over all grants of all links. |
| `SpendAuthority.Verify` | js/src/spend.ts:208-240 | Approves exactly when both amounts parse, the chain is not empty, every link's `pay` scopes parse and grant the asset, the amount is within every transaction cap, the exact sum within every total cap and, where one exists, writable in 40 characters. |
| `SpendAuthority.ApprovalMeans` | js/src/spend.ts:208-240 | The condition in terms of the scope texts alone: for every scope on the chain that spells a grant over the asset, the amount is within its transaction cap and the rational sum within its total cap, and every link has such a scope. |
| `SpendAuthority.ApprovalComposes` | js/src/spend.ts:181-196 | A longer chain approves exactly what both of its parts approve. |
| `SpendAuthority.RunStaysWithinCap` | js/src/spend.ts:198-240 | Over any run of attempts with an honest ledger, the approved payments sum to at most each total cap of every link common to the chains approved; what rejected attempts present does not matter. |
| `ChallengeStore.InMemoryChallengeStore.constructor` | src/fg_agent_id/challenge_store.py:67-70 | A new store is empty. |
| `ChallengeStore.InMemoryChallengeStore.Issue` | src/fg_agent_id/challenge_store.py:72-80 | Prunes, then inserts the challenge under the deadline fixed before the lock was taken. |
| `ChallengeStore.InMemoryChallengeStore.Consume` | src/fg_agent_id/challenge_store.py:82-86 | Prunes, removes the identifier, and returns its challenge if it was there. |
| `ChallengeStore.InMemoryChallengeStore.Prune` | src/fg_agent_id/challenge_store.py:88-92 | The loop removes exactly the entries whose deadline is not later than now. |
| `ChallengeStore.InMemoryChallengeStore.Count` | src/fg_agent_id/challenge_store.py:94-97 | Prunes, then counts what is left. |
| `ChallengeHistory.StoreAgrees` | src/fg_agent_id/challenge_store.py:72-97 | Before every event the store holds only issued challenges not yet returned, and all of those whose deadline has not passed by the latest event. |
| `ChallengeHistory.ConsumeIsExact` | src/fg_agent_id/challenge_store.py:72-92 | In every interleaving with fresh identifiers and a clock that never goes back, consuming returns a challenge exactly when the store issued it under that identifier, no earlier event returned it, and its deadline is later than now. |
| `ChallengeHistory.ReturnedAtMostOnce` | src/fg_agent_id/challenge_store.py:45-52 | No two events return a challenge under the same identifier. |
| `ChallengeHistory.CountIsExact` | src/fg_agent_id/challenge_store.py:94-97 | The length is the number of identifiers issued, not returned and not yet due. |
| `Vectors.MixedValues` | spec/vectors.json:6-17 | The first canonical JSON vector, as text. |
| `Vectors.ThreeNumbers` | spec/vectors.json:18-25 | The second canonical JSON vector. |
| `Vectors.NestedValues` | spec/vectors.json:26-39 | The third canonical JSON vector. |
| `Vectors.Base58Texts` | spec/vectors.json:41-49 | The first two base58 vectors. |
| `Vectors.SigningInputs` | spec/vectors.json:76-91 | Both signing input vectors, as the length and the UTF-8 of the tag and the payload. |
| `Vectors.Base64Texts` | js/src/bytes.ts:37-49 | The one-group vectors of section 10 of RFC 4648. |

## Left out

- Ed25519, X25519, SHA-256, scrypt, ChaCha20-Poly1305 and random generation: foreign calls, represented by the parameters of `Crypto.Scheme`.
- Unicode normalization, lone surrogates and UTF-16 units: strings are NFC-stable code point sequences.
- Calendar and timezone parsing, and the text of a timestamp beyond its being a function of the instant.
- JavaScript numbers other than integers: values are integers, so the rejection of NaN, fractions and unsafe integers (`js/src/canonical.ts:54-67`) is not modelled.
- The standard library's base64, used by the Python package, is taken to be the same section 4 of RFC 4648 as the TypeScript loops.
- Feed.ReviveInvertsEntry: says nothing about JSON serialization; parsing a record (`model_validate`) is represented by its result.
- Rotation snapshots whose fingerprints disagree with known ones: `restore` follows the code, which overwrites, and no theorem is stated about them. A version 1 snapshot forgets conflict history on purpose; only `RegistryPersistence.OldSnapshotKeepsLearning` is about it.
- Python's `Decimal` arithmetic in `src/fg_agent_id/spend.py`: it follows an ambient precision, and the exact TypeScript form is modelled instead.
- The shared Redis challenge store, key files, owner and identity facades, DID documents, cards, devices and challenge responses: input and output, and straight-line checks.
- Staleness helpers of the revocation registry (`age_seconds`, `is_stale`, `require_fresh`): arithmetic on one clock reading.
- A revocation's issuer is not matched to the revoked grant's issuer on admission (`src/fg_agent_id/delegation.py:401-403`); nothing is claimed about it.
- Error messages, exception classes and logging.
