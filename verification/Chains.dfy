/** Verifying grants, chains of grants, and revocations. */
module Chains {
  import opened Wrappers
  import opened Signing
  import opened Crypto
  import opened Delegation
  import opened CanonicalJson
  import Base64

  /** What a verification is asked to check; a negative leeway counts as none. */
  datatype Terms = Terms(now: int, checkWindow: bool, leeway: int, understood: set<string>)

  function Leeway(terms: Terms): int {
    if terms.leeway < 0 then 0 else terms.leeway
  }

  predicate InWindow(link: Delegation, terms: Terms) {
    terms.checkWindow ==> terms.now - Leeway(terms) < link.expiresAt && link.issuedAt <= terms.now + Leeway(terms)
  }

  predicate LinkSigned(scheme: Scheme, link: Delegation) {
    VerifyByAddress(scheme, link.issuer, CONTEXT_DELEGATION, DelegationPayload(scheme, link), link.signature)
  }

  predicate Understood(link: Delegation, understood: set<string>) {
    forall name | name in link.critical :: name in understood
  }

  predicate LinkVerifies(scheme: Scheme, link: Delegation, terms: Terms) {
    InWindow(link, terms) && LinkSigned(scheme, link) && Understood(link, terms.understood)
  }

  method VerifyLink(scheme: Scheme, link: Delegation, terms: Terms) returns (ok: bool)
    ensures ok <==> LinkVerifies(scheme, link, terms)
  {
    if terms.checkWindow {
      var leeway := if terms.leeway < 0 then 0 else terms.leeway;
      if terms.now - leeway >= link.expiresAt {
        return false;
      }
      if terms.now + leeway < link.issuedAt {
        return false;
      }
    }
    if !LinkSigned(scheme, link) {
      return false;
    }
    return Understood(link, terms.understood);
  }

  /** A malformed signature was never valid, so its grant is not revoked either. */
  predicate IsRevoked(scheme: Scheme, link: Delegation, revoked: set<string>) {
    match Digest(scheme, link)
    case None => false
    case Some(digest) => digest in revoked
  }

  predicate LinkAccepted(scheme: Scheme, link: Delegation, revoked: set<string>, revokedKeys: set<string>, terms: Terms)
  {
    && LinkVerifies(scheme, link, terms)
    && !IsRevoked(scheme, link, revoked)
    && link.issuer !in revokedKeys && link.subject !in revokedKeys
  }

  predicate Connected(links: seq<Delegation>) {
    forall i | 0 < i < |links| :: links[i].issuer == links[i - 1].subject
  }

  /** Every link is accepted, each link's subject issues the next, and the last subject is the agent. */
  predicate Accepts(scheme: Scheme, links: seq<Delegation>, agent: string, revoked: set<string>,
                    revokedKeys: set<string>, terms: Terms)
  {
    links == [] ||
    ((forall i | 0 <= i < |links| :: LinkAccepted(scheme, links[i], revoked, revokedKeys, terms)) &&
     Connected(links) && links[|links| - 1].subject == agent)
  }

  /** The scopes every link grants; none for the empty chain. */
  function EffectiveScopes(links: seq<Delegation>): set<string> {
    if links == [] then {} else set s | s in links[0].scopes && forall i | 0 <= i < |links| :: s in links[i].scopes
  }

  method Verify(scheme: Scheme, chain: DelegationChain, agent: string, revoked: set<string>, revokedKeys: set<string>,
                terms: Terms)
    returns (scopes: Option<set<string>>)
    ensures scopes.Some? <==> Accepts(scheme, chain.links, agent, revoked, revokedKeys, terms)
    ensures scopes.Some? ==> scopes.value == EffectiveScopes(chain.links)
  {
    hide LinkVerifies, IsRevoked;
    var links := chain.links;
    if links == [] {
      return Some({});
    }
    var effective: Option<set<string>> := None;
    for i := 0 to |links|
      invariant forall j | 0 <= j < i :: LinkAccepted(scheme, links[j], revoked, revokedKeys, terms)
      invariant forall j | 0 < j < i :: links[j].issuer == links[j - 1].subject
      invariant effective.Some? <==> i > 0
      invariant effective.Some? ==> effective.value == EffectiveScopes(links[..i])
    {
      var link := links[i];
      var ok := VerifyLink(scheme, link, terms);
      if !ok {
        return None;
      }
      if IsRevoked(scheme, link, revoked) {
        return None;
      }
      if link.issuer in revokedKeys || link.subject in revokedKeys {
        return None;
      }
      if i > 0 && link.issuer != links[i - 1].subject {
        return None;
      }
      ScopesNarrow(links[..i], link);
      assert links[..i + 1] == links[..i] + [link];
      effective := Some(if effective.None? then link.scopes else effective.value * link.scopes);
    }
    assert links[..|links|] == links;
    if links[|links| - 1].subject != agent {
      return None;
    }
    return effective;
  }

  lemma ScopesNarrow(links: seq<Delegation>, link: Delegation)
    ensures EffectiveScopes(links + [link]) == if links == [] then link.scopes else EffectiveScopes(links) * link.scopes
  {
    var longer := links + [link];
    assert longer[|links|] == link;
    assert forall i | 0 <= i < |links| :: longer[i] == links[i];
  }

  /** Verification is compositional: a chain is accepted exactly when its two parts are, the first at the agent
      that issues the second, and its scopes are what both parts grant, so extension never widens. */
  lemma AcceptanceComposes(scheme: Scheme, a: seq<Delegation>, b: seq<Delegation>, agent: string, revoked: set<string>,
                           revokedKeys: set<string>, terms: Terms)
    requires a != [] && b != []
    ensures Accepts(scheme, a + b, agent, revoked, revokedKeys, terms) <==>
      Accepts(scheme, a, b[0].issuer, revoked, revokedKeys, terms) &&
        Accepts(scheme, b, agent, revoked, revokedKeys, terms)
    ensures EffectiveScopes(a + b) == EffectiveScopes(a) * EffectiveScopes(b)
  {
    hide LinkAccepted;
    var whole := a + b;
    assert forall i | 0 <= i < |a| :: whole[i] == a[i];
    assert forall i | 0 <= i < |b| :: whole[|a| + i] == b[i];
    JoinedConnects(a, b);
    JoinedScopes(a, b);
    forall i | 0 <= i < |whole|
      ensures whole[i] == if i < |a| then a[i] else b[i - |a|]
    {
    }
  }

  lemma JoinedConnects(a: seq<Delegation>, b: seq<Delegation>)
    requires a != [] && b != []
    ensures Connected(a + b) <==> Connected(a) && Connected(b) && b[0].issuer == a[|a| - 1].subject
  {
    var whole := a + b;
    assert whole[|a|] == b[0] && whole[|a| - 1] == a[|a| - 1];
    if Connected(whole) {
      forall i | 0 < i < |a|
        ensures a[i].issuer == a[i - 1].subject
      {
        assert whole[i] == a[i] && whole[i - 1] == a[i - 1];
      }
      forall i | 0 < i < |b|
        ensures b[i].issuer == b[i - 1].subject
      {
        assert whole[|a| + i] == b[i] && whole[|a| + i - 1] == b[i - 1];
      }
    }
  }

  lemma JoinedScopes(a: seq<Delegation>, b: seq<Delegation>)
    requires a != [] && b != []
    ensures EffectiveScopes(a + b) == EffectiveScopes(a) * EffectiveScopes(b)
  {
    var whole := a + b;
    forall s
      ensures s in EffectiveScopes(whole) <==> s in EffectiveScopes(a) && s in EffectiveScopes(b)
    {
      if s in EffectiveScopes(whole) {
        assert forall i | 0 <= i < |a| :: whole[i] == a[i];
        assert forall i | 0 <= i < |b| :: whole[|a| + i] == b[i];
      }
    }
  }

  // ----- the validity window -----

  function LatestIssue(links: seq<Delegation>): (latest: int)
    requires links != []
    ensures forall link | link in links :: link.issuedAt <= latest
    ensures exists link | link in links :: link.issuedAt == latest
  {
    if |links| == 1 then links[0].issuedAt
    else
      var rest := LatestIssue(links[1..]);
      assert links == [links[0]] + links[1..];
      if rest < links[0].issuedAt then links[0].issuedAt else rest
  }

  function EarliestExpiry(links: seq<Delegation>): (earliest: int)
    requires links != []
    ensures forall link | link in links :: earliest <= link.expiresAt
    ensures exists link | link in links :: link.expiresAt == earliest
  {
    if |links| == 1 then links[0].expiresAt
    else
      var rest := EarliestExpiry(links[1..]);
      assert links == [links[0]] + links[1..];
      if links[0].expiresAt < rest then links[0].expiresAt else rest
  }

  /** Time matters in exactly one way: the instant lies in [latest issue - leeway, earliest expiry + leeway). */
  lemma WindowIsExact(scheme: Scheme, links: seq<Delegation>, agent: string, revoked: set<string>,
                      revokedKeys: set<string>, terms: Terms)
    requires links != [] && terms.checkWindow
    ensures Accepts(scheme, links, agent, revoked, revokedKeys, terms) <==>
      Accepts(scheme, links, agent, revoked, revokedKeys, terms.(checkWindow := false)) &&
      LatestIssue(links) - Leeway(terms) <= terms.now < EarliestExpiry(links) + Leeway(terms)
  {
    hide LinkSigned, Understood, IsRevoked;
    var timeless := terms.(checkWindow := false);
    if Accepts(scheme, links, agent, revoked, revokedKeys, terms) {
      forall i | 0 <= i < |links|
        ensures LinkAccepted(scheme, links[i], revoked, revokedKeys, timeless) && InWindow(links[i], terms)
      {
        assert LinkAccepted(scheme, links[i], revoked, revokedKeys, terms);
      }
      var last :| last in links && last.issuedAt == LatestIssue(links);
      var first :| first in links && first.expiresAt == EarliestExpiry(links);
      assert InWindow(last, terms) && InWindow(first, terms);
    }
    if Accepts(scheme, links, agent, revoked, revokedKeys, timeless) &&
       LatestIssue(links) - Leeway(terms) <= terms.now < EarliestExpiry(links) + Leeway(terms) {
      forall i | 0 <= i < |links|
        ensures LinkAccepted(scheme, links[i], revoked, revokedKeys, terms)
      {
        assert links[i] in links;
        assert LinkAccepted(scheme, links[i], revoked, revokedKeys, timeless);
      }
    }
  }

  /** Growing either revocation set can only turn acceptance into rejection. */
  lemma RevocationOnlyRejects(scheme: Scheme, links: seq<Delegation>, agent: string, revoked: set<string>,
                              revokedKeys: set<string>, more: set<string>, moreKeys: set<string>, terms: Terms)
    requires revoked <= more && revokedKeys <= moreKeys
    requires Accepts(scheme, links, agent, more, moreKeys, terms)
    ensures Accepts(scheme, links, agent, revoked, revokedKeys, terms)
  {
    hide LinkVerifies;
    forall i | 0 <= i < |links|
      ensures LinkAccepted(scheme, links[i], revoked, revokedKeys, terms)
    {
      assert LinkAccepted(scheme, links[i], more, moreKeys, terms);
    }
  }

  // ----- revocation records -----

  predicate RevocationVerifies(scheme: Scheme, r: Revocation) {
    VerifyByAddress(scheme, r.issuer, CONTEXT_REVOCATION, RevocationPayload(scheme, r), r.signature)
  }

  predicate KeyRevocationSigned(scheme: Scheme, r: KeyRevocation) {
    VerifyByAddress(scheme, r.issuer, CONTEXT_KEY_REVOCATION, KeyRevocationPayload(scheme, r), r.signature)
  }

  function CriticalNames(links: seq<Delegation>): set<string> {
    set i, name | 0 <= i < |links| && name in links[i].critical :: name
  }

  /** A proof of past control is checked with neither the window, nor criticality, nor revocation applied. */
  function ProofTerms(links: seq<Delegation>): Terms {
    Terms(0, false, 0, CriticalNames(links))
  }

  /** Signed, and by the address itself or by the root of a chain down to it. */
  predicate KeyRevocationVerifies(scheme: Scheme, r: KeyRevocation) {
    && KeyRevocationSigned(scheme, r)
    && (r.issuer == r.address ||
        (r.chain.Some? && r.chain.value.links != [] && r.chain.value.links[0].issuer == r.issuer &&
         Accepts(scheme, r.chain.value.links, r.address, {}, {}, ProofTerms(r.chain.value.links))))
  }

  method VerifyKeyRevocation(scheme: Scheme, r: KeyRevocation) returns (ok: bool)
    ensures ok <==> KeyRevocationVerifies(scheme, r)
  {
    if !KeyRevocationSigned(scheme, r) {
      return false;
    }
    if r.issuer == r.address {
      return true;
    }
    if r.chain.None? {
      return false;
    }
    var links := r.chain.value.links;
    var scopes := Verify(scheme, r.chain.value, r.address, {}, {}, ProofTerms(links));
    if scopes.None? {
      return false;
    }
    return links != [] && links[0].issuer == r.issuer;
  }

  /** Owner recall is always available: whatever the time, the extensions understood and the revocations applied when
      a chain was accepted for an agent, its root can revoke the agent's key with that chain as proof, at any time. */
  lemma OwnerCanRecall(scheme: Scheme, links: seq<Delegation>, agent: string, revoked: set<string>,
                       revokedKeys: set<string>, terms: Terms, r: KeyRevocation)
    requires links != [] && Accepts(scheme, links, agent, revoked, revokedKeys, terms)
    requires r.address == agent && r.issuer == links[0].issuer && r.chain == Some(DelegationChain(links))
    requires KeyRevocationSigned(scheme, r)
    ensures KeyRevocationVerifies(scheme, r)
  {
    hide KeyRevocationSigned, LinkSigned, Digest;
    forall i | 0 <= i < |links|
      ensures LinkAccepted(scheme, links[i], {}, {}, ProofTerms(links))
    {
      assert LinkAccepted(scheme, links[i], revoked, revokedKeys, terms);
    }
  }

  /** A chain through a revoked key, or with a revoked link, is rejected whatever the other terms. */
  lemma RevokedIsRejected(scheme: Scheme, links: seq<Delegation>, agent: string, revoked: set<string>,
                          revokedKeys: set<string>, terms: Terms, link: Delegation)
    requires link in links
    requires link.issuer in revokedKeys || link.subject in revokedKeys || IsRevoked(scheme, link, revoked)
    ensures !Accepts(scheme, links, agent, revoked, revokedKeys, terms)
  {
    hide LinkVerifies, IsRevoked;
    var i :| 0 <= i < |links| && links[i] == link;
    assert !LinkAccepted(scheme, links[i], revoked, revokedKeys, terms);
  }

  // ----- what acceptance means -----

  /** The link is signed by its issuer's own key, its window widened by the leeway holds the instant, every critical
      name is understood, and neither its digest nor its keys are revoked. */
  ghost predicate Sound(scheme: Scheme, d: Delegation, revoked: set<string>, revokedKeys: set<string>, terms: Terms) {
    && SignedBy(scheme, d.issuer, "delegation", DelegationPayload(scheme, d), d.signature)
    && (terms.checkWindow && terms.leeway <= 0 ==> d.issuedAt <= terms.now < d.expiresAt)
    && (terms.checkWindow && terms.leeway > 0 ==> d.issuedAt - terms.leeway <= terms.now < d.expiresAt + terms.leeway)
    && (forall name | name in d.critical :: name in terms.understood)
    && (forall digest | Digest(scheme, d) == Some(digest) :: digest !in revoked)
    && d.issuer !in revokedKeys && d.subject !in revokedKeys
  }

  lemma LinkAcceptedMeans(scheme: Scheme, d: Delegation, revoked: set<string>, revokedKeys: set<string>, terms: Terms)
    ensures LinkAccepted(scheme, d, revoked, revokedKeys, terms) <==> Sound(scheme, d, revoked, revokedKeys, terms)
  {
    hide VerifyByAddress, SignedBy, DelegationPayload, Digest;
    VerifyMeans(scheme, d.issuer, "delegation", DelegationPayload(scheme, d), d.signature);
  }

  /** A non-empty chain is accepted exactly when every link is sound, each subject issues the next link, and the last
      subject is the agent. */
  lemma AcceptanceMeans(scheme: Scheme, links: seq<Delegation>, agent: string, revoked: set<string>,
                        revokedKeys: set<string>, terms: Terms)
    ensures Accepts(scheme, links, agent, revoked, revokedKeys, terms) <==>
      links == [] ||
      (&& (forall i | 0 <= i < |links| :: Sound(scheme, links[i], revoked, revokedKeys, terms))
       && (forall i | 0 < i < |links| :: links[i].issuer == links[i - 1].subject)
       && links[|links| - 1].subject == agent)
  {
    hide LinkAccepted, Sound;
    forall i | 0 <= i < |links|
      ensures LinkAccepted(scheme, links[i], revoked, revokedKeys, terms) <==>
        Sound(scheme, links[i], revoked, revokedKeys, terms)
    {
      LinkAcceptedMeans(scheme, links[i], revoked, revokedKeys, terms);
    }
  }

  /** The digest covers the signing input followed by the decoded signature. */
  lemma DigestLayout(scheme: Scheme, d: Delegation, raw: Bytes)
    requires d.signature == Base64.Encode(raw)
    ensures SigningInput("delegation", DelegationPayload(scheme, d)).Some?
    ensures Digest(scheme, d) ==
      Some(scheme.digest(SigningInput("delegation", DelegationPayload(scheme, d)).value + raw))
  {
    hide Base64.Encode, Base64.DecodeSignature, DelegationPayload, Canonicalize;
    Base64.OneSpellingPerSignature(d.signature, raw);
    ContextAccepted("delegation");
  }

  /** A chain holding a grant whose digest is revoked is rejected. */
  lemma RevokedDigestIsRejected(scheme: Scheme, links: seq<Delegation>, agent: string, revoked: set<string>,
                                revokedKeys: set<string>, terms: Terms, link: Delegation)
    requires link in links && Digest(scheme, link).Some? && Digest(scheme, link).value in revoked
    ensures !Accepts(scheme, links, agent, revoked, revokedKeys, terms)
  {
    hide SignedBy, Digest, DelegationPayload;
    AcceptanceMeans(scheme, links, agent, revoked, revokedKeys, terms);
    hide Accepts;
    var i :| 0 <= i < |links| && links[i] == link;
    assert !Sound(scheme, links[i], revoked, revokedKeys, terms);
  }

  /** Revocations of other grants and keys change nothing: if none is of this chain, acceptance is as with none. */
  lemma OtherRevocationsDoNotMatter(scheme: Scheme, links: seq<Delegation>, agent: string, revoked: set<string>,
                                    revokedKeys: set<string>, terms: Terms)
    requires forall link | link in links :: link.issuer !in revokedKeys && link.subject !in revokedKeys
    requires forall link, digest | link in links && Digest(scheme, link) == Some(digest) :: digest !in revoked
    ensures Accepts(scheme, links, agent, revoked, revokedKeys, terms) <==> Accepts(scheme, links, agent, {}, {}, terms)
  {
    hide SignedBy, Digest, DelegationPayload;
    AcceptanceMeans(scheme, links, agent, revoked, revokedKeys, terms);
    AcceptanceMeans(scheme, links, agent, {}, {}, terms);
    hide Accepts;
    forall i | 0 <= i < |links|
      ensures Sound(scheme, links[i], revoked, revokedKeys, terms) <==> Sound(scheme, links[i], {}, {}, terms)
    {
      assert links[i] in links;
    }
  }

  /** A scope is effective exactly when there is a link and every link grants it. */
  lemma ScopesMean(links: seq<Delegation>, s: string)
    ensures s in EffectiveScopes(links) <==> links != [] && forall i | 0 <= i < |links| :: s in links[i].scopes
  {
  }

  /** A revocation is honoured exactly when the key of the issuer it names signed it. */
  lemma RevocationMeans(scheme: Scheme, r: Revocation)
    ensures RevocationVerifies(scheme, r) <==>
      SignedBy(scheme, r.issuer, "revocation", RevocationPayload(scheme, r), r.signature)
  {
    hide VerifyByAddress, SignedBy, RevocationPayload;
    VerifyMeans(scheme, r.issuer, "revocation", RevocationPayload(scheme, r), r.signature);
  }

  /** The proof shows that `owner` once controlled `agent`: an unbroken chain of signed grants from one to the other. */
  ghost predicate ProvesControl(scheme: Scheme, proof: Option<DelegationChain>, owner: string, agent: string) {
    && proof.Some? && proof.value.links != []
    && proof.value.links[0].issuer == owner
    && proof.value.links[|proof.value.links| - 1].subject == agent
    && (forall i | 0 < i < |proof.value.links| :: proof.value.links[i].issuer == proof.value.links[i - 1].subject)
    && forall i | 0 <= i < |proof.value.links| ::
         var d := proof.value.links[i];
         SignedBy(scheme, d.issuer, "delegation", DelegationPayload(scheme, d), d.signature)
  }

  lemma ProofLinkMeans(scheme: Scheme, links: seq<Delegation>, i: nat)
    requires i < |links|
    ensures Sound(scheme, links[i], {}, {}, ProofTerms(links)) <==>
      SignedBy(scheme, links[i].issuer, "delegation", DelegationPayload(scheme, links[i]), links[i].signature)
  {
    hide SignedBy, DelegationPayload, Digest;
    assert forall name | name in links[i].critical :: name in CriticalNames(links);
  }

  /** A key revocation is honoured exactly when its issuer's key signed it and the issuer is the address itself, or
      carries proof of having controlled it; no other party can revoke the key. */
  lemma KeyRevocationMeans(scheme: Scheme, r: KeyRevocation)
    ensures KeyRevocationVerifies(scheme, r) <==>
      && SignedBy(scheme, r.issuer, "key-revocation", KeyRevocationPayload(scheme, r), r.signature)
      && (r.issuer == r.address || ProvesControl(scheme, r.chain, r.issuer, r.address))
  {
    hide VerifyByAddress, SignedBy, KeyRevocationPayload, DelegationPayload;
    VerifyMeans(scheme, r.issuer, "key-revocation", KeyRevocationPayload(scheme, r), r.signature);
    if r.chain.Some? {
      var links := r.chain.value.links;
      AcceptanceMeans(scheme, links, r.address, {}, {}, ProofTerms(links));
      hide Accepts, Sound;
      forall i | 0 <= i < |links|
        ensures Sound(scheme, links[i], {}, {}, ProofTerms(links)) <==>
          SignedBy(scheme, links[i].issuer, "delegation", DelegationPayload(scheme, links[i]), links[i].signature)
      {
        ProofLinkMeans(scheme, links, i);
      }
    }
  }
}
