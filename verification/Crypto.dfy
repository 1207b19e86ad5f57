/** The foreign primitives, as parameters, and the checks the package builds from them. */
module Crypto {
  import opened Wrappers
  import opened CanonicalJson
  import Base58
  import Base64
  import opened Signing

  /** Ed25519 and SHA-256, together with the calendar text of an instant. */
  datatype Scheme = Scheme(
    publicKey: Bytes -> Bytes,
    sign: (Bytes, Bytes) -> Bytes,
    verifies: (Bytes, Bytes, Bytes) -> bool,
    digest: Bytes -> string,
    timestamp: int -> string)

  /** Public keys are 32 bytes, and what a secret key signs verifies under its public key. */
  ghost predicate Correct(scheme: Scheme) {
    forall secret, message ::
      |scheme.publicKey(secret)| == 32 &&
      scheme.verifies(scheme.publicKey(secret), message, scheme.sign(secret, message))
  }

  ghost predicate CollisionFree(scheme: Scheme) {
    forall x, y :: scheme.digest(x) == scheme.digest(y) ==> x == y
  }

  /** Some scheme meets both hypotheses and tells secrets apart, so no lemma about them is empty. */
  lemma HypothesesAreConsistent()
    ensures exists scheme: Scheme, one, other ::
      Correct(scheme) && CollisionFree(scheme) && scheme.publicKey(one) != scheme.publicKey(other)
  {
    var spell := (x: Bytes) => seq(|x|, i requires 0 <= i < |x| => x[i] as char);
    var first, second := seq<Byte>(32, _ => 0), seq<Byte>(32, _ => 1);
    var publicKey := (secret: Bytes) => if secret == [] then first else second;
    var scheme := Scheme(publicKey, (_, _) => [], (_, _, _) => true, spell, _ => "");
    forall x: Bytes, y: Bytes | spell(x) == spell(y)
      ensures x == y
    {
      assert |x| == |spell(x)| && |y| == |spell(y)|;
      assert forall i | 0 <= i < |x| :: spell(x)[i] == x[i] as char && spell(y)[i] == y[i] as char;
    }
    assert Correct(scheme) && CollisionFree(scheme);
    assert first[0] != second[0];
    assert scheme.publicKey([]) != scheme.publicKey([0]);
  }

  lemma {:induction false} Utf8Bound(text: string)
    ensures |Utf8(text)| <= 4 * |text|
  {
    if text != "" {
      Utf8Bound(text[1..]);
    }
  }

  /** The package's own contexts are accepted. */
  lemma ContextAccepted(context: string)
    requires context != "" && |context| <= 1000
    ensures DomainTag(context).Some?
  {
    Utf8Bound(DOMAIN + "/" + context);
  }

  function Input(context: string, payload: Json): Bytes
    requires DomainTag(context).Some?
  {
    SigningInput(context, payload).value
  }

  /** A valid, canonically spelled signature by the key the address names, under an accepted context. */
  predicate VerifyByAddress(scheme: Scheme, address: string, context: string, payload: Json, signature: string) {
    match Base58.SigningKeyFromAddress(address)
    case None => false
    case Some(key) =>
      match Base64.DecodeSignature(signature)
      case None => false
      case Some(raw) =>
        match SigningInput(context, payload)
        case None => false
        case Some(input) => scheme.verifies(key, input, raw)
  }

  /** None when the context is rejected. */
  function SignPayload(scheme: Scheme, secret: Bytes, context: string, payload: Json): Option<string> {
    match SigningInput(context, payload)
    case None => None
    case Some(input) => Some(Base64.Encode(scheme.sign(secret, input)))
  }

  /** Signing succeeds exactly under an accepted context, and what a key signs verifies against its own address. */
  lemma SignedVerifies(scheme: Scheme, secret: Bytes, context: string, payload: Json)
    requires Correct(scheme)
    ensures
      var signature := SignPayload(scheme, secret, context, payload);
      var address := Base58.AddressFromSigningKey(scheme.publicKey(secret));
      && (signature.Some? <==> DomainTag(context).Some?)
      && address.Some?
      && (signature.Some? ==> VerifyByAddress(scheme, address.value, context, payload, signature.value))
  {
    var key := scheme.publicKey(secret);
    assert scheme.verifies(key, [], scheme.sign(secret, []));
    Base58.AddressesNameKeys(Base58.AddressFromSigningKey(key).value, key);
    if DomainTag(context).Some? {
      var input := SigningInput(context, payload).value;
      assert scheme.verifies(key, input, scheme.sign(secret, input));
      Base64.OneSpellingPerSignature(Base64.Encode(scheme.sign(secret, input)), scheme.sign(secret, input));
    }
  }

  /** The signature is the encoding of bytes that verify, under the key the address was built from, over the signing
      input. */
  ghost predicate SignedBy(scheme: Scheme, address: string, context: string, payload: Json, signature: string) {
    exists key, raw ::
      && Base58.AddressFromSigningKey(key) == Some(address)
      && signature == Base64.Encode(raw)
      && SigningInput(context, payload).Some?
      && scheme.verifies(key, SigningInput(context, payload).value, raw)
  }

  /** A signature by an address is decided by the key and the bytes alone. */
  lemma VerdictIsTheKeys(scheme: Scheme, key: Bytes, context: string, payload: Json, raw: Bytes)
    requires |key| == 32 && DomainTag(context).Some?
    ensures VerifyByAddress(scheme, Base58.AddressFromSigningKey(key).value, context, payload, Base64.Encode(raw)) <==>
      scheme.verifies(key, SigningInput(context, payload).value, raw)
  {
    hide Base58.Encode, Base64.Encode;
    Base58.AddressesNameKeys(Base58.AddressFromSigningKey(key).value, key);
    Base64.OneSpellingPerSignature(Base64.Encode(raw), raw);
  }

  /** What is accepted is signed, and nothing that is signed is refused. */
  lemma VerifyMeans(scheme: Scheme, address: string, context: string, payload: Json, signature: string)
    ensures VerifyByAddress(scheme, address, context, payload, signature) <==>
      SignedBy(scheme, address, context, payload, signature)
  {
    hide Base58.AddressFromSigningKey, Base58.SigningKeyFromAddress, Base64.Encode, Base64.DecodeSignature,
      SigningInput;
    if VerifyByAddress(scheme, address, context, payload, signature) {
      var key, raw := Base58.SigningKeyFromAddress(address).value, Base64.DecodeSignature(signature).value;
      Base58.AddressesNameKeys(address, key);
      Base64.OneSpellingPerSignature(signature, raw);
    }
    if SignedBy(scheme, address, context, payload, signature) {
      var key, raw :|
        && Base58.AddressFromSigningKey(key) == Some(address) && signature == Base64.Encode(raw)
        && SigningInput(context, payload).Some? && scheme.verifies(key, SigningInput(context, payload).value, raw);
      Base58.AddressesNameKeys(address, key);
      Base64.OneSpellingPerSignature(signature, raw);
    }
  }
}
