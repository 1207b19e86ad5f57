/** Delegation grants, chains of grants, and the two kinds of revocation record. */
module Delegation {
  import opened Wrappers
  import opened Text
  import opened CanonicalJson
  import opened Signing
  import opened Crypto
  import Base64

  /** A grant; `extra` holds the unknown wire fields, which are preserved and signed. */
  datatype Delegation = Delegation(
    issuer: string,
    subject: string,
    scopes: set<string>,
    issuedAt: int,
    expiresAt: int,
    signature: string,
    critical: seq<string>,
    extra: seq<Field>)

  /** Ordered grants, root first. */
  datatype DelegationChain = DelegationChain(links: seq<Delegation>)

  datatype Revocation = Revocation(issuer: string, delegationDigest: string, revokedAt: int, signature: string)

  datatype KeyRevocation = KeyRevocation(
    address: string,
    issuer: string,
    revokedAt: int,
    chain: Option<DelegationChain>,
    signature: string)

  const KNOWN_FIELDS: set<string> :=
    {"issuer", "subject", "scopes", "issued_at", "expires_at", "signature", "critical", "extra"}

  /** What construction enforces: extension fields shadow no known field, and every critical name is one of them. */
  ghost predicate Constructible(d: Delegation) {
    && DistinctKeys(d.extra)
    && (forall f | f in d.extra :: f.key !in KNOWN_FIELDS && WellFormed(f.value))
    && forall name | name in d.critical :: name in Keys(d.extra)
  }

  // ----- sorted lists -----

  predicate IsLeast(m: multiset<string>, least: string) {
    least in m && forall x | x in m :: Compare(least, x) <= 0
  }

  lemma AtMostTransitive(a: string, b: string, c: string)
    requires Compare(a, b) <= 0 && Compare(b, c) <= 0
    ensures Compare(a, c) <= 0
  {
    CompareIsTotal(a, b);
    CompareIsTotal(b, c);
    if a != b && b != c {
      CompareIsTransitive(a, b, c);
    }
  }

  lemma {:induction false} LeastExists(m: multiset<string>) returns (least: string)
    requires m != multiset{}
    ensures IsLeast(m, least)
    decreases |m|
  {
    var any :| any in m;
    var rest := m - multiset{any};
    CompareIsTotal(any, any);
    if rest == multiset{} {
      least := any;
      assert forall x | x in m :: x == any || x in rest;
    } else {
      var other := LeastExists(rest);
      CompareIsTotal(any, other);
      least := if Compare(any, other) <= 0 then any else other;
      forall x | x in m
        ensures Compare(least, x) <= 0
      {
        if x != any {
          assert x in rest;
          if least == any {
            AtMostTransitive(any, other, x);
          }
        }
      }
    }
  }

  /** `sorted`: by code point, repetitions kept. */
  function Ordered(m: multiset<string>): (list: seq<string>)
    ensures multiset(list) == m
    decreases |m|
  {
    if m == multiset{} then []
    else
      assert exists least :: IsLeast(m, least) by {
        var least := LeastExists(m);
      }
      LeastIsUnique(m);
      var least :| IsLeast(m, least);
      [least] + Ordered(m - multiset{least})
  }

  lemma LeastIsUnique(m: multiset<string>)
    ensures forall a, b | IsLeast(m, a) && IsLeast(m, b) :: a == b
  {
    forall a, b | IsLeast(m, a) && IsLeast(m, b)
      ensures a == b
    {
      CompareIsTotal(a, b);
    }
  }

  lemma OrderedFirst(m: multiset<string>)
    requires m != multiset{}
    ensures
      var list := Ordered(m);
      list != [] && IsLeast(m, list[0]) && list[1..] == Ordered(m - multiset{list[0]})
  {
    hide IsLeast;
    assert exists least :: IsLeast(m, least) by {
      var least := LeastExists(m);
    }
    LeastIsUnique(m);
    var least :| IsLeast(m, least);
    assert Ordered(m) == [least] + Ordered(m - multiset{least});
  }

  /** The list ascends, so it is the sorted list of its elements. */
  lemma {:induction false} OrderedAscends(m: multiset<string>)
    ensures
      var list := Ordered(m);
      forall i, j | 0 <= i < j < |list| :: Compare(list[i], list[j]) <= 0
    decreases |m|
  {
    if m != multiset{} {
      OrderedFirst(m);
      hide Ordered, Compare;
      var list := Ordered(m);
      var rest := list[1..];
      OrderedAscends(m - multiset{list[0]});
      forall i, j | 0 <= i < j < |list|
        ensures Compare(list[i], list[j]) <= 0
      {
        if i == 0 {
          assert list[j] in multiset(list);
        } else {
          assert list[i] == rest[i - 1] && list[j] == rest[j - 1];
        }
      }
    }
  }

  /** In code point order, repetitions side by side. */
  lemma OrderedPrecedes(m: multiset<string>)
    ensures
      var list := Ordered(m);
      forall i, j | 0 <= i < j < |list| :: list[i] == list[j] || Precedes(list[i], list[j])
  {
    hide Ordered, Compare, Precedes;
    OrderedAscends(m);
    var list := Ordered(m);
    forall i, j | 0 <= i < j < |list|
      ensures list[i] == list[j] || Precedes(list[i], list[j])
    {
      CompareMeans(list[i], list[j]);
    }
  }

  function Texts(list: seq<string>): Json {
    Arr(seq(|list|, i requires 0 <= i < |list| => Str(list[i])))
  }

  lemma TextsSame(a: seq<string>, b: seq<string>)
    requires Same(Texts(a), Texts(b))
    ensures a == b
  {
    assert |Texts(a).items| == |a| && |Texts(b).items| == |b|;
    forall i | 0 <= i < |a|
      ensures a[i] == b[i]
    {
      assert Same(Texts(a).items[i], Texts(b).items[i]);
    }
  }

  lemma SortedSame(a: multiset<string>, b: multiset<string>)
    requires Same(Texts(Ordered(a)), Texts(Ordered(b)))
    ensures a == b
  {
    TextsSame(Ordered(a), Ordered(b));
  }

  // ----- payloads -----

  function CoreFields(scheme: Scheme, d: Delegation): seq<Field> {
    [ Field("issuer", Str(d.issuer)),
      Field("subject", Str(d.subject)),
      Field("scopes", Texts(Ordered(multiset(d.scopes)))),
      Field("issued_at", Str(scheme.timestamp(d.issuedAt))),
      Field("expires_at", Str(scheme.timestamp(d.expiresAt)))]
  }

  /** Serialized only when present. */
  function CriticalFields(d: Delegation): seq<Field> {
    if d.critical == [] then [] else [Field("critical", Texts(Ordered(multiset(d.critical))))]
  }

  function DelegationPayload(scheme: Scheme, d: Delegation): Json {
    Obj(CoreFields(scheme, d) + CriticalFields(d) + d.extra)
  }

  function DelegationDump(scheme: Scheme, d: Delegation): Json {
    Obj(CoreFields(scheme, d) + CriticalFields(d) + d.extra + [Field("signature", Str(d.signature))])
  }

  function ChainDump(scheme: Scheme, chain: DelegationChain): Json {
    var links := chain.links;
    Obj([Field("links", Arr(seq(|links|, i requires 0 <= i < |links| => DelegationDump(scheme, links[i]))))])
  }

  function RevocationPayload(scheme: Scheme, r: Revocation): Json {
    Obj([
      Field("issuer", Str(r.issuer)),
      Field("delegation_digest", Str(r.delegationDigest)),
      Field("revoked_at", Str(scheme.timestamp(r.revokedAt)))])
  }

  /** The proof chain is signed too. */
  function KeyRevocationPayload(scheme: Scheme, r: KeyRevocation): Json {
    Obj([
      Field("address", Str(r.address)),
      Field("chain", match r.chain case None => Null case Some(chain) => ChainDump(scheme, chain)),
      Field("issuer", Str(r.issuer)),
      Field("revoked_at", Str(scheme.timestamp(r.revokedAt)))])
  }

  /** The identifier of this exact grant, over the decoded signature; None when the signature is malformed. */
  function Digest(scheme: Scheme, d: Delegation): Option<string> {
    ContextAccepted(CONTEXT_DELEGATION);
    match Base64.DecodeSignature(d.signature)
    case None => None
    case Some(raw) => Some(scheme.digest(Input(CONTEXT_DELEGATION, DelegationPayload(scheme, d)) + raw))
  }

  /** The same grant: every signed field agrees, extension fields compared without regard to order. */
  ghost predicate SameGrant(scheme: Scheme, a: Delegation, b: Delegation) {
    && a.issuer == b.issuer && a.subject == b.subject && a.scopes == b.scopes
    && scheme.timestamp(a.issuedAt) == scheme.timestamp(b.issuedAt)
    && scheme.timestamp(a.expiresAt) == scheme.timestamp(b.expiresAt)
    && multiset(a.critical) == multiset(b.critical)
    && Same(Obj(a.extra), Obj(b.extra))
  }

  const CORE_NAMES: set<string> := {"issuer", "subject", "scopes", "issued_at", "expires_at"}

  const CORE_KEYS: seq<string> := ["issuer", "subject", "scopes", "issued_at", "expires_at"]

  lemma CoreKeysDiffer()
    ensures forall i, j | 0 <= i < j < |CORE_KEYS| :: CORE_KEYS[i] != CORE_KEYS[j]
  {
    assert |CORE_KEYS[0]| == 6 && |CORE_KEYS[1]| == 7 && |CORE_KEYS[2]| == 6 && |CORE_KEYS[3]| == 9 &&
      |CORE_KEYS[4]| == 10;
    assert CORE_KEYS[0][0] == 'i' && CORE_KEYS[2][0] == 's';
  }

  lemma CoreFieldNames(scheme: Scheme, d: Delegation)
    ensures DistinctKeys(CoreFields(scheme, d)) && Keys(CoreFields(scheme, d)) == CORE_NAMES
  {
    hide Ordered, Texts;
    var core := CoreFields(scheme, d);
    assert |core| == |CORE_KEYS| && forall i | 0 <= i < |core| :: core[i].key == CORE_KEYS[i];
    CoreKeysDiffer();
    hide CoreFields;
    KeysAre(core, CORE_KEYS);
    assert forall k :: k in CORE_KEYS <==> k in CORE_NAMES;
  }

  lemma KeysAre(fields: seq<Field>, keys: seq<string>)
    requires |fields| == |keys| && forall i | 0 <= i < |fields| :: fields[i].key == keys[i]
    ensures forall k :: k in Keys(fields) <==> k in keys
  {
    forall k | k in keys
      ensures k in Keys(fields)
    {
      var i :| 0 <= i < |keys| && keys[i] == k;
      assert fields[i] in fields;
    }
  }

  lemma TextsWellFormed(list: seq<string>)
    ensures WellFormed(Texts(list))
  {
  }

  lemma DistinctAppend(a: seq<Field>, b: seq<Field>)
    requires DistinctKeys(a) && DistinctKeys(b) && Keys(a) !! Keys(b)
    ensures DistinctKeys(a + b) && Keys(a + b) == Keys(a) + Keys(b)
  {
    assert forall f | f in a :: f.key in Keys(a);
    assert forall f | f in b :: f.key in Keys(b);
  }

  /** The payload lists its core fields, `critical` when there is any, and the extensions, without repeating a name. */
  lemma PayloadFields(scheme: Scheme, d: Delegation)
    requires Constructible(d)
    ensures WellFormed(DelegationPayload(scheme, d))
    ensures Keys(DelegationPayload(scheme, d).fields) ==
      CORE_NAMES + (if d.critical == [] then {} else {"critical"}) + Keys(d.extra)
    ensures "critical" !in CORE_NAMES && "critical" !in Keys(d.extra) && CORE_NAMES !! Keys(d.extra)
  {
    var core, critical := CoreFields(scheme, d), CriticalFields(d);
    CoreFieldNames(scheme, d);
    ValuesWellFormed(scheme, d);
    hide Ordered, CoreFields, WellFormed;
    assert Keys(critical) == if d.critical == [] then {} else {"critical"};
    DistinctAppend(core, critical);
    DistinctAppend(core + critical, d.extra);
    FieldsWellFormed(core + critical + d.extra);
  }

  lemma ValuesWellFormed(scheme: Scheme, d: Delegation)
    ensures forall f | f in CoreFields(scheme, d) + CriticalFields(d) :: WellFormed(f.value)
  {
    TextsWellFormed(Ordered(multiset(d.scopes)));
    TextsWellFormed(Ordered(multiset(d.critical)));
    hide Ordered, Texts;
  }

  lemma FieldsWellFormed(fields: seq<Field>)
    requires DistinctKeys(fields) && forall f | f in fields :: WellFormed(f.value)
    ensures WellFormed(Obj(fields))
  {
  }

  /** Fields of the same name in payloads that are the same hold the same value. */
  lemma SameField(a: Json, b: Json, f: Field, g: Field)
    requires a.Obj? && b.Obj? && Same(a, b) && f in a.fields && g in b.fields && f.key == g.key
    ensures Same(f.value, g.value)
  {
  }

  lemma SameText(a: Json, b: Json)
    requires a.Str? && b.Str? && Same(a, b)
    ensures a.s == b.s
  {
  }

  lemma SameScopes(a: set<string>, b: set<string>)
    requires Same(Texts(Ordered(multiset(a))), Texts(Ordered(multiset(b))))
    ensures a == b
  {
    hide Ordered, Texts, Same;
    SortedSame(multiset(a), multiset(b));
    assert forall s :: s in multiset(a) <==> s in a;
    assert forall s :: s in multiset(b) <==> s in b;
  }

  lemma SameCore(scheme: Scheme, a: Delegation, b: Delegation)
    requires Same(DelegationPayload(scheme, a), DelegationPayload(scheme, b))
    ensures a.issuer == b.issuer && a.subject == b.subject && a.scopes == b.scopes
    ensures scheme.timestamp(a.issuedAt) == scheme.timestamp(b.issuedAt)
    ensures scheme.timestamp(a.expiresAt) == scheme.timestamp(b.expiresAt)
  {
    hide Ordered, Texts, DelegationPayload, Same;
    var f, g := CoreFields(scheme, a), CoreFields(scheme, b);
    forall i | 0 <= i < 5
      ensures Same(f[i].value, g[i].value)
    {
      SameCoreField(scheme, a, b, i);
    }
    assert f[2].value == Texts(Ordered(multiset(a.scopes))) && g[2].value == Texts(Ordered(multiset(b.scopes)));
    SameText(f[0].value, g[0].value);
    SameText(f[1].value, g[1].value);
    SameScopes(a.scopes, b.scopes);
    SameText(f[3].value, g[3].value);
    SameText(f[4].value, g[4].value);
  }

  lemma SameCoreField(scheme: Scheme, a: Delegation, b: Delegation, i: nat)
    requires i < 5 && Same(DelegationPayload(scheme, a), DelegationPayload(scheme, b))
    ensures Same(CoreFields(scheme, a)[i].value, CoreFields(scheme, b)[i].value)
  {
    hide Ordered, Texts, Same;
    var p, q := DelegationPayload(scheme, a), DelegationPayload(scheme, b);
    var f, g := CoreFields(scheme, a)[i], CoreFields(scheme, b)[i];
    assert p.fields[i] == f && q.fields[i] == g;
    SameField(p, q, f, g);
  }

  lemma SameCritical(scheme: Scheme, a: Delegation, b: Delegation)
    requires Constructible(a) && Constructible(b)
    requires Same(DelegationPayload(scheme, a), DelegationPayload(scheme, b))
    ensures multiset(a.critical) == multiset(b.critical)
  {
    PayloadFields(scheme, a);
    PayloadFields(scheme, b);
    var p, q := DelegationPayload(scheme, a), DelegationPayload(scheme, b);
    assert "critical" in Keys(p.fields) <==> "critical" in Keys(q.fields);
    if a.critical != [] {
      SameField(p, q, CriticalFields(a)[0], CriticalFields(b)[0]);
      SortedSame(multiset(a.critical), multiset(b.critical));
    }
  }

  lemma Peel(all: set<string>, core: set<string>, mark: set<string>, most: set<string>, extra: set<string>)
    requires all == core + mark + extra && mark <= most && core !! extra && most !! extra
    ensures extra == all - core - most
  {
  }

  lemma ExtraKeys(scheme: Scheme, d: Delegation)
    requires Constructible(d)
    ensures Keys(d.extra) == Keys(DelegationPayload(scheme, d).fields) - CORE_NAMES - {"critical"}
  {
    PayloadFields(scheme, d);
    hide DelegationPayload, WellFormed, Keys;
    var mark: set<string> := if d.critical == [] then {} else {"critical"};
    Peel(Keys(DelegationPayload(scheme, d).fields), CORE_NAMES, mark, {"critical"}, Keys(d.extra));
  }

  lemma SameExtra(scheme: Scheme, a: Delegation, b: Delegation)
    requires Constructible(a) && Constructible(b)
    requires Same(DelegationPayload(scheme, a), DelegationPayload(scheme, b))
    ensures Same(Obj(a.extra), Obj(b.extra))
  {
    ExtraKeys(scheme, a);
    ExtraKeys(scheme, b);
    var p, q := DelegationPayload(scheme, a), DelegationPayload(scheme, b);
    SameObjects(p.fields, q.fields);
    hide Ordered, CoreFields, CriticalFields, WellFormed, DistinctKeys, Constructible, Same, Keys;
    forall f, g | f in a.extra && g in b.extra && f.key == g.key
      ensures Same(f.value, g.value)
    {
      SameField(p, q, f, g);
    }
    SameObjects(a.extra, b.extra);
  }

  /** Objects are the same exactly when they have the same names, and the same value under each. */
  lemma SameObjects(a: seq<Field>, b: seq<Field>)
    ensures Same(Obj(a), Obj(b)) <==>
      Keys(a) == Keys(b) && forall f, g | f in a && g in b && f.key == g.key :: Same(f.value, g.value)
  {
  }

  /** The same grant has the same payload, key order aside. */
  lemma GrantFixesPayload(scheme: Scheme, a: Delegation, b: Delegation)
    requires Constructible(a) && Constructible(b) && SameGrant(scheme, a, b)
    ensures Same(DelegationPayload(scheme, a), DelegationPayload(scheme, b))
  {
    PayloadFields(scheme, a);
    PayloadFields(scheme, b);
    SharedFields(scheme, a, b);
    assert Same(Obj(a.extra), Obj(b.extra));
    hide Ordered, CoreFields, CriticalFields, WellFormed, DistinctKeys, Constructible, Same, Keys, SameGrant;
    var p, q := DelegationPayload(scheme, a), DelegationPayload(scheme, b);
    forall f, g | f in p.fields && g in q.fields && f.key == g.key
      ensures Same(f.value, g.value)
    {
      SharedOrExtra(scheme, a, b, f, g);
    }
    SameObjects(p.fields, q.fields);
  }

  lemma SharedFields(scheme: Scheme, a: Delegation, b: Delegation)
    requires SameGrant(scheme, a, b)
    ensures CoreFields(scheme, a) == CoreFields(scheme, b) && CriticalFields(a) == CriticalFields(b)
    ensures Keys(a.extra) == Keys(b.extra) && (a.critical == [] <==> b.critical == [])
  {
    hide Ordered, Texts;
    assert |a.critical| == |multiset(a.critical)| && |b.critical| == |multiset(b.critical)|;
  }

  lemma SharedKeys(scheme: Scheme, d: Delegation)
    requires Constructible(d)
    ensures
      var shared := CoreFields(scheme, d) + CriticalFields(d);
      DistinctKeys(shared) && Keys(shared) !! Keys(d.extra) && Keys(shared) <= CORE_NAMES + {"critical"}
  {
    PayloadFields(scheme, d);
    CoreFieldNames(scheme, d);
    assert Keys(CriticalFields(d)) <= {"critical"};
    hide Ordered, CoreFields, Constructible;
    DistinctAppend(CoreFields(scheme, d), CriticalFields(d));
  }

  /** A name shared by two field lists, each a common part and extensions named apart from it, is in both or neither
      part. */
  lemma OnOneSide(shared: seq<Field>, a: seq<Field>, b: seq<Field>, f: Field, g: Field)
    requires Keys(shared) !! Keys(a) && Keys(shared) !! Keys(b)
    requires f in shared + a && g in shared + b && f.key == g.key
    ensures (f in shared && g in shared) || (f in a && g in b)
  {
    assert forall h | h in shared :: h.key in Keys(shared);
    assert forall h | h in a :: h.key in Keys(a);
    assert forall h | h in b :: h.key in Keys(b);
  }

  lemma SharedOrExtra(scheme: Scheme, a: Delegation, b: Delegation, f: Field, g: Field)
    requires Constructible(a) && Constructible(b) && Same(Obj(a.extra), Obj(b.extra))
    requires CoreFields(scheme, a) == CoreFields(scheme, b) && CriticalFields(a) == CriticalFields(b)
    requires f in DelegationPayload(scheme, a).fields && g in DelegationPayload(scheme, b).fields && f.key == g.key
    ensures Same(f.value, g.value)
  {
    var shared := CoreFields(scheme, a) + CriticalFields(a);
    SharedKeys(scheme, a);
    SharedKeys(scheme, b);
    ValuesWellFormed(scheme, a);
    hide Ordered, CoreFields, CriticalFields, WellFormed, DistinctKeys, Same, Constructible, Keys;
    OnOneSide(shared, a.extra, b.extra, f, g);
    if f in shared && g in shared {
      FieldWithKey(shared, f, g);
      OneTextPerValue(f.value, f.value);
    } else {
      SameField(Obj(a.extra), Obj(b.extra), f, g);
    }
  }

  /** One digest per grant and signature: digests agree exactly when the signed grant and the signature do. No
      respelling of a signature, and no extension field, gives a revoked grant a second digest. */
  lemma DigestIdentifiesGrant(scheme: Scheme, a: Delegation, b: Delegation)
    requires CollisionFree(scheme) && Constructible(a) && Constructible(b)
    requires Digest(scheme, a).Some? && Digest(scheme, b).Some?
    ensures Digest(scheme, a) == Digest(scheme, b) <==> SameGrant(scheme, a, b) && a.signature == b.signature
  {
    ContextAccepted(CONTEXT_DELEGATION);
    if SameGrant(scheme, a, b) && a.signature == b.signature {
      GrantFixesPayload(scheme, a, b);
      PayloadFields(scheme, a);
      PayloadFields(scheme, b);
      OneTextPerValue(DelegationPayload(scheme, a), DelegationPayload(scheme, b));
      SameTextSameInput(CONTEXT_DELEGATION, DelegationPayload(scheme, a), DelegationPayload(scheme, b));
    }
    hide CollisionFree, Ordered, CoreFields, CriticalFields, Same, Input, SameGrant;
    if Digest(scheme, a) == Digest(scheme, b) {
      var raw, other := Base64.DecodeSignature(a.signature).value, Base64.DecodeSignature(b.signature).value;
      hide Base64.DecodeSignature;
      DigestFixesPayload(scheme, DelegationPayload(scheme, a), raw, DelegationPayload(scheme, b), other) by {
        PayloadFields(scheme, a);
        PayloadFields(scheme, b);
      }
      Base64.OneSpellingPerSignature(a.signature, raw);
      Base64.OneSpellingPerSignature(b.signature, raw);
      SameCore(scheme, a, b);
      SameCritical(scheme, a, b);
      SameExtra(scheme, a, b);
      assert SameGrant(scheme, a, b) by {
        GrantsAgree(scheme, a, b);
      }
    }
  }

  lemma SameTextSameInput(context: string, p: Json, q: Json)
    requires DomainTag(context).Some? && Canonicalize(p) == Canonicalize(q)
    ensures Input(context, p) == Input(context, q)
  {
  }

  lemma GrantsAgree(scheme: Scheme, a: Delegation, b: Delegation)
    requires a.issuer == b.issuer && a.subject == b.subject && a.scopes == b.scopes
    requires scheme.timestamp(a.issuedAt) == scheme.timestamp(b.issuedAt)
    requires scheme.timestamp(a.expiresAt) == scheme.timestamp(b.expiresAt)
    requires multiset(a.critical) == multiset(b.critical) && Same(Obj(a.extra), Obj(b.extra))
    ensures SameGrant(scheme, a, b)
  {
  }

  /** Appending the signature to the signing input is unambiguous, so the digest fixes both. */
  lemma DigestFixesPayload(scheme: Scheme, p: Json, raw: Bytes, q: Json, other: Bytes)
    requires CollisionFree(scheme) && p.Obj? && q.Obj? && WellFormed(p) && WellFormed(q)
    requires DomainTag(CONTEXT_DELEGATION).Some?
    requires scheme.digest(Input(CONTEXT_DELEGATION, p) + raw) == scheme.digest(Input(CONTEXT_DELEGATION, q) + other)
    ensures Same(p, q) && raw == other
  {
    hide Canonicalize, Utf8, DomainTag, LengthPrefix, WellFormed, Same;
    ObjectInputEnds(CONTEXT_DELEGATION, p, CONTEXT_DELEGATION, q, raw, other);
  }

  // ----- what each payload covers -----

  /** Each core field carries the grant's own value under its name, the scopes and critical names sorted. */
  lemma PayloadValues(scheme: Scheme, d: Delegation)
    ensures
      var fields := DelegationPayload(scheme, d).fields;
      && Field("issuer", Str(d.issuer)) in fields && Field("subject", Str(d.subject)) in fields
      && Field("scopes", Texts(Ordered(multiset(d.scopes)))) in fields
      && Field("issued_at", Str(scheme.timestamp(d.issuedAt))) in fields
      && Field("expires_at", Str(scheme.timestamp(d.expiresAt))) in fields
      && (d.critical != [] ==> Field("critical", Texts(Ordered(multiset(d.critical)))) in fields)
      && forall f | f in d.extra :: f in fields
  {
    hide Ordered, Texts;
    var core, critical := CoreFields(scheme, d), CriticalFields(d);
    assert core[0] in core && core[1] in core && core[2] in core && core[3] in core && core[4] in core;
    assert d.critical != [] ==> critical[0] in critical;
    hide CoreFields, CriticalFields;
    assert forall f | f in core || f in critical || f in d.extra :: f in core + critical + d.extra;
  }

  lemma RevocationPayloadIsWellFormed(scheme: Scheme, r: Revocation)
    ensures WellFormed(RevocationPayload(scheme, r))
  {
    var fields := RevocationPayload(scheme, r).fields;
    assert fields[0].key[0] == 'i' && fields[1].key[0] == 'd' && fields[2].key[0] == 'r';
  }

  lemma RevocationPayloadFixes(scheme: Scheme, a: Revocation, b: Revocation)
    requires Same(RevocationPayload(scheme, a), RevocationPayload(scheme, b))
    ensures a.issuer == b.issuer && a.delegationDigest == b.delegationDigest
    ensures scheme.timestamp(a.revokedAt) == scheme.timestamp(b.revokedAt)
  {
    hide Same;
    var p, q := RevocationPayload(scheme, a), RevocationPayload(scheme, b);
    SameTexts(p.fields, q.fields, 0);
    SameTexts(p.fields, q.fields, 1);
    SameTexts(p.fields, q.fields, 2);
  }

  /** A revocation's payload covers exactly its issuer, the digest it revokes and its time. */
  lemma RevocationPayloadCovers(scheme: Scheme, a: Revocation, b: Revocation)
    ensures Same(RevocationPayload(scheme, a), RevocationPayload(scheme, b)) <==>
      && a.issuer == b.issuer && a.delegationDigest == b.delegationDigest
      && scheme.timestamp(a.revokedAt) == scheme.timestamp(b.revokedAt)
  {
    hide WellFormed, Same;
    var p, q := RevocationPayload(scheme, a), RevocationPayload(scheme, b);
    RevocationPayloadIsWellFormed(scheme, a);
    if a.issuer == b.issuer && a.delegationDigest == b.delegationDigest &&
       scheme.timestamp(a.revokedAt) == scheme.timestamp(b.revokedAt) {
      assert p == q;
      OneTextPerValue(p, p);
    }
    if Same(p, q) {
      RevocationPayloadFixes(scheme, a, b);
    }
  }

  lemma RevocationEntries(scheme: Scheme, r: Revocation)
    ensures
      var fields := RevocationPayload(scheme, r).fields;
      Entries([fields[1], fields[0], fields[2]]) == [
        Labelled("delegation_digest", EncodeString(r.delegationDigest)),
        Labelled("issuer", EncodeString(r.issuer)),
        Labelled("revoked_at", EncodeString(scheme.timestamp(r.revokedAt)))]
  {
    hide Canonicalize, EncodeString, Entry, Labelled;
    StringEntry("delegation_digest", r.delegationDigest);
    StringEntry("issuer", r.issuer);
    StringEntry("revoked_at", scheme.timestamp(r.revokedAt));
  }

  /** The exact text a revocation signs. */
  lemma RevocationText(scheme: Scheme, r: Revocation)
    ensures Canonicalize(RevocationPayload(scheme, r)) ==
      "{" + Join([
        Labelled("delegation_digest", EncodeString(r.delegationDigest)),
        Labelled("issuer", EncodeString(r.issuer)),
        Labelled("revoked_at", EncodeString(scheme.timestamp(r.revokedAt)))], ',') + "}"
  {
    hide Canonicalize, EncodeString, Join, Ascending, IsPlain, Labelled, Entries, WellFormed;
    var fields := RevocationPayload(scheme, r).fields;
    var sorted := [fields[1], fields[0], fields[2]];
    RevocationKeysDiffer(scheme, r);
    RevocationKeysAscend(sorted);
    hide DistinctKeys;
    assert multiset(sorted) == multiset(fields);
    RecordText(fields, sorted);
    RevocationEntries(scheme, r);
  }

  lemma RevocationKeysDiffer(scheme: Scheme, r: Revocation)
    ensures DistinctKeys(RevocationPayload(scheme, r).fields)
  {
    RevocationPayloadIsWellFormed(scheme, r);
  }

  lemma RevocationKeysAscend(sorted: seq<Field>)
    requires |sorted| == 3
    requires sorted[0].key == "delegation_digest" && sorted[1].key == "issuer" && sorted[2].key == "revoked_at"
    ensures Ascending(sorted) && forall i | 0 <= i < |sorted| :: IsPlain(sorted[i].key)
  {
    hide Precedes;
    PrecedesByChar("delegation_digest", "issuer", 0);
    PrecedesByChar("issuer", "revoked_at", 0);
  }

  /** The exact text a key revocation signs. */
  lemma KeyRevocationText(scheme: Scheme, r: KeyRevocation)
    ensures Canonicalize(KeyRevocationPayload(scheme, r)) ==
      "{" + Join([
        Labelled("address", EncodeString(r.address)),
        Labelled("chain", Canonicalize(ProofValue(scheme, r.chain))),
        Labelled("issuer", EncodeString(r.issuer)),
        Labelled("revoked_at", EncodeString(scheme.timestamp(r.revokedAt)))], ',') + "}"
  {
    hide Canonicalize, EncodeString, Join, Ascending, IsPlain, Labelled, ProofValue;
    var fields := KeyRevocationPayload(scheme, r).fields;
    KeyRevocationFields(scheme, r);
    KeyRevocationKeysAscend(fields);
    AscendingIsDistinct(fields);
    RecordText(fields, fields);
    StringText(r.address);
    StringText(r.issuer);
    StringText(scheme.timestamp(r.revokedAt));
    assert Entries(fields) == [Entry(fields[0]), Entry(fields[1]), Entry(fields[2]), Entry(fields[3])];
  }

  lemma KeyRevocationKeysAscend(fields: seq<Field>)
    requires |fields| == 4 && fields[0].key == "address" && fields[1].key == "chain"
    requires fields[2].key == "issuer" && fields[3].key == "revoked_at"
    ensures Ascending(fields) && forall i | 0 <= i < |fields| :: IsPlain(fields[i].key)
  {
    hide Precedes;
    PrecedesByChar("address", "chain", 0);
    PrecedesByChar("chain", "issuer", 0);
    PrecedesByChar("issuer", "revoked_at", 0);
  }

  lemma SameWithoutLast(a: seq<Field>, f: Field, b: seq<Field>, g: Field)
    requires f.key == g.key && f.key !in Keys(a) && g.key !in Keys(b)
    ensures Same(Obj(a + [f]), Obj(b + [g])) <==> Same(Obj(a), Obj(b)) && Same(f.value, g.value)
  {
    var p, q := a + [f], b + [g];
    KeysWithLast(a, f);
    KeysWithLast(b, g);
    SameObjects(p, q);
    SameObjects(a, b);
    hide Same, Keys;
    assert f in p && g in q;
    assert forall x :: x in p <==> x in a || x == f;
    assert forall x :: x in q <==> x in b || x == g;
    KeysListed(a);
    KeysListed(b);
  }

  lemma KeysListed(fields: seq<Field>)
    ensures forall f | f in fields :: f.key in Keys(fields)
  {
  }

  lemma KeysWithLast(a: seq<Field>, f: Field)
    ensures Keys(a + [f]) == Keys(a) + {f.key}
  {
    assert forall g :: g in a + [f] <==> g in a || g == f;
  }

  /** The dumps of two grants are the same exactly when the grants and their signatures are. */
  lemma DumpIdentifies(scheme: Scheme, a: Delegation, b: Delegation)
    requires Constructible(a) && Constructible(b)
    ensures Same(DelegationDump(scheme, a), DelegationDump(scheme, b)) <==>
      SameGrant(scheme, a, b) && a.signature == b.signature
  {
    hide Ordered, CoreFields, CriticalFields, WellFormed, DistinctKeys, Keys, Same;
    PayloadHasNoSignature(scheme, a);
    PayloadHasNoSignature(scheme, b);
    var f, g := Field("signature", Str(a.signature)), Field("signature", Str(b.signature));
    SameWithoutLast(DelegationPayload(scheme, a).fields, f, DelegationPayload(scheme, b).fields, g);
    SameStrings(a.signature, b.signature);
    PayloadIdentifies(scheme, a, b);
  }

  lemma SameStrings(s: string, t: string)
    ensures Same(Str(s), Str(t)) <==> s == t
  {
  }

  lemma SignatureIsNoPayloadName()
    ensures "signature" !in CORE_NAMES && "signature" != "critical" && "signature" in KNOWN_FIELDS
  {
    var name := "signature";
    assert |name| == 9 && name[0] == 's' && |"critical"| == 8;
    assert |"issuer"| == 6 && |"subject"| == 7 && |"scopes"| == 6 && |"expires_at"| == 10 && "issued_at"[0] == 'i';
  }

  lemma PayloadHasNoSignature(scheme: Scheme, d: Delegation)
    requires Constructible(d)
    ensures "signature" !in Keys(DelegationPayload(scheme, d).fields)
  {
    PayloadFields(scheme, d);
    SignatureIsNoPayloadName();
    hide DelegationPayload, WellFormed, DistinctKeys;
    assert "signature" !in Keys(d.extra);
  }

  /** Two payloads are the same exactly when the grants are. */
  lemma PayloadIdentifies(scheme: Scheme, a: Delegation, b: Delegation)
    requires Constructible(a) && Constructible(b)
    ensures Same(DelegationPayload(scheme, a), DelegationPayload(scheme, b)) <==> SameGrant(scheme, a, b)
  {
    hide Ordered, CoreFields, CriticalFields, WellFormed, DistinctKeys, Keys, Same, SameGrant, DelegationPayload;
    if SameGrant(scheme, a, b) {
      GrantFixesPayload(scheme, a, b);
    }
    if Same(DelegationPayload(scheme, a), DelegationPayload(scheme, b)) {
      SameCore(scheme, a, b);
      SameCritical(scheme, a, b);
      SameExtra(scheme, a, b);
      GrantsAgree(scheme, a, b);
    }
  }

  /** The same proof: none, or the same grants with the same signatures in the same order. */
  ghost predicate SameProof(scheme: Scheme, a: Option<DelegationChain>, b: Option<DelegationChain>) {
    match (a, b)
    case (None, None) => true
    case (Some(x), Some(y)) =>
      |x.links| == |y.links| &&
      forall i | 0 <= i < |x.links| ::
        SameGrant(scheme, x.links[i], y.links[i]) && x.links[i].signature == y.links[i].signature
    case _ => false
  }

  ghost predicate ProofConstructible(proof: Option<DelegationChain>) {
    proof.Some? ==> forall link | link in proof.value.links :: Constructible(link)
  }

  function ProofValue(scheme: Scheme, proof: Option<DelegationChain>): Json {
    match proof
    case None => Null
    case Some(chain) => ChainDump(scheme, chain)
  }

  lemma SameLinks(a: seq<Json>, b: seq<Json>)
    ensures Same(Obj([Field("links", Arr(a))]), Obj([Field("links", Arr(b))])) <==>
      |a| == |b| && forall i | 0 <= i < |a| :: Same(a[i], b[i])
  {
    var p, q := [Field("links", Arr(a))], [Field("links", Arr(b))];
    SameObjects(p, q);
    SameArrays(a, b);
    hide Same;
    assert p[0] in p && q[0] in q;
    assert Keys(p) == {"links"} && Keys(q) == {"links"};
  }

  lemma SameArrays(a: seq<Json>, b: seq<Json>)
    ensures Same(Arr(a), Arr(b)) <==> |a| == |b| && forall i | 0 <= i < |a| :: Same(a[i], b[i])
  {
  }

  lemma ProofIdentifies(scheme: Scheme, a: Option<DelegationChain>, b: Option<DelegationChain>)
    requires ProofConstructible(a) && ProofConstructible(b)
    ensures Same(ProofValue(scheme, a), ProofValue(scheme, b)) <==> SameProof(scheme, a, b)
  {
    if a.Some? && b.Some? {
      var x, y := a.value.links, b.value.links;
      var s := seq(|x|, i requires 0 <= i < |x| => DelegationDump(scheme, x[i]));
      var t := seq(|y|, i requires 0 <= i < |y| => DelegationDump(scheme, y[i]));
      SameLinks(s, t);
      hide Same, DelegationDump, SameGrant, Constructible;
      forall i | 0 <= i < |x| && i < |y|
        ensures Same(s[i], t[i]) <==> SameGrant(scheme, x[i], y[i]) && x[i].signature == y[i].signature
      {
        DumpIdentifies(scheme, x[i], y[i]);
      }
    }
  }

  /** A key revocation's payload covers exactly its address, its proof chain with every signature in it, its issuer and
      its time. */
  lemma KeyRevocationPayloadCovers(scheme: Scheme, a: KeyRevocation, b: KeyRevocation)
    requires ProofConstructible(a.chain) && ProofConstructible(b.chain)
    ensures Same(KeyRevocationPayload(scheme, a), KeyRevocationPayload(scheme, b)) <==>
      && a.address == b.address && a.issuer == b.issuer && SameProof(scheme, a.chain, b.chain)
      && scheme.timestamp(a.revokedAt) == scheme.timestamp(b.revokedAt)
  {
    hide Same, ProofValue, SameProof, ProofConstructible;
    ProofIdentifies(scheme, a.chain, b.chain);
    KeyRevocationFields(scheme, a);
    KeyRevocationFields(scheme, b);
    FourFields("address", "chain", "issuer", "revoked_at",
      [Str(a.address), ProofValue(scheme, a.chain), Str(a.issuer), Str(scheme.timestamp(a.revokedAt))],
      [Str(b.address), ProofValue(scheme, b.chain), Str(b.issuer), Str(scheme.timestamp(b.revokedAt))]);
    SameStrings(a.address, b.address);
    SameStrings(a.issuer, b.issuer);
    SameStrings(scheme.timestamp(a.revokedAt), scheme.timestamp(b.revokedAt));
  }

  lemma KeyRevocationFields(scheme: Scheme, r: KeyRevocation)
    ensures KeyRevocationPayload(scheme, r) == Obj([
      Field("address", Str(r.address)),
      Field("chain", ProofValue(scheme, r.chain)),
      Field("issuer", Str(r.issuer)),
      Field("revoked_at", Str(scheme.timestamp(r.revokedAt)))])
  {
    hide ChainDump;
  }

  lemma FourFields(k: string, l: string, m: string, n: string, x: seq<Json>, y: seq<Json>)
    requires |x| == |y| == 4 && k != l && k != m && k != n && l != m && l != n && m != n
    ensures
      var a := [Field(k, x[0]), Field(l, x[1]), Field(m, x[2]), Field(n, x[3])];
      var b := [Field(k, y[0]), Field(l, y[1]), Field(m, y[2]), Field(n, y[3])];
      Same(Obj(a), Obj(b)) <==> Same(x[0], y[0]) && Same(x[1], y[1]) && Same(x[2], y[2]) && Same(x[3], y[3])
  {
    hide Same;
    var a := [Field(k, x[0]), Field(l, x[1]), Field(m, x[2]), Field(n, x[3])];
    var b := [Field(k, y[0]), Field(l, y[1]), Field(m, y[2]), Field(n, y[3])];
    if Same(Obj(a), Obj(b)) {
      SameAt(a, b, 0);
      SameAt(a, b, 1);
      SameAt(a, b, 2);
      SameAt(a, b, 3);
    }
    if Same(x[0], y[0]) && Same(x[1], y[1]) && Same(x[2], y[2]) && Same(x[3], y[3]) {
      FieldsPair(a, b, a, b);
    }
  }
}
