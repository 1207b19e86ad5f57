/** UTF-8, and the length-prefixed, domain-separated bytes every signature covers. */
module Signing {
  import opened Wrappers
  import opened CanonicalJson

  // ----- UTF-8 -----

  /** A code point in one to four bytes; a shift right by six is a division by 64. */
  function EncodeChar(c: char): (bytes: Bytes)
    ensures bytes != []
  {
    var n := c as int;
    if n < 0x80 then [n]
    else if n < 0x800 then [0xC0 + n / 64, 0x80 + n % 64]
    else if n < 0x1_0000 then [0xE0 + n / 64 / 64, 0x80 + n / 64 % 64, 0x80 + n % 64]
    else [0xF0 + n / 64 / 64 / 64, 0x80 + n / 64 / 64 % 64, 0x80 + n / 64 % 64, 0x80 + n % 64]
  }

  predicate IsContinuation(b: Byte) {
    0x80 <= b < 0xC0
  }

  /** The bytes are the encoding of section 3 of RFC 3629: the lead byte tells their number, the others carry six bits
      each, and no shorter form holds the code point. */
  lemma CharBytes(c: char)
    ensures
      var b, n := EncodeChar(c), c as int;
      && 1 <= |b| <= 4
      && (forall i | 1 <= i < |b| :: IsContinuation(b[i]))
      && (|b| == 1 <==> n < 0x80)
      && (|b| == 2 <==> 0x80 <= n < 0x800)
      && (|b| == 3 <==> 0x800 <= n < 0x1_0000)
      && n == Continue(LeadBits(b), b[1..])
  {
    var b, n := EncodeChar(c), c as int;
    var tail := b[1..];
    assert n == n / 64 * 64 + n % 64;
    if |b| == 2 {
      assert Continue(n / 64, tail) == Continue(n, tail[1..]);
    } else if |b| == 3 {
      var high := n / 64 / 64;
      assert tail[1..] == [b[2]];
      assert Continue(high, tail) == Continue(n / 64, [b[2]]) == Continue(n, [b[2]][1..]);
    } else if |b| == 4 {
      var high, mid := n / 64 / 64 / 64, n / 64 / 64;
      assert tail[1..] == [b[2], b[3]] && [b[2], b[3]][1..] == [b[3]];
      assert Continue(high, tail) == Continue(mid, [b[2], b[3]]) == Continue(n / 64, [b[3]]) ==
        Continue(n, [b[3]][1..]);
    }
  }

  /** What the lead byte carries, by its range. */
  function LeadBits(bytes: Bytes): int {
    if |bytes| == 1 then bytes[0]
    else if |bytes| == 2 then if 0xC0 <= bytes[0] < 0xE0 then bytes[0] as int - 0xC0 else -1
    else if |bytes| == 3 then if 0xE0 <= bytes[0] < 0xF0 then bytes[0] as int - 0xE0 else -1
    else if |bytes| == 4 then if 0xF0 <= bytes[0] < 0xF8 then bytes[0] as int - 0xF0 else -1
    else -1
  }

  /** Six more bits from each continuation byte. */
  function Continue(acc: int, bytes: Bytes): int
    decreases |bytes|
  {
    if bytes == [] then acc else Continue(acc * 64 + (bytes[0] as int - 0x80), bytes[1..])
  }

  function Utf8(text: string): Bytes {
    if text == "" then [] else EncodeChar(text[0]) + Utf8(text[1..])
  }

  /** No code point's bytes begin another's. */
  lemma CharEnds(c: char, d: char, x: Bytes, y: Bytes)
    requires EncodeChar(c) + x == EncodeChar(d) + y
    ensures c == d && x == y
  {
    var a, b := EncodeChar(c), EncodeChar(d);
    assert a[0] == (a + x)[0] == (b + y)[0] == b[0];
    assert |a| == |b|;
    assert a == (a + x)[..|a|] == (b + y)[..|b|] == b;
    assert (a + x)[|a|..] == x && (b + y)[|b|..] == y;
    SameBytesSameChar(c, d);
  }

  lemma SameBytesSameChar(c: char, d: char)
    requires EncodeChar(c) == EncodeChar(d)
    ensures c == d
  {
    var a, b := EncodeChar(c), EncodeChar(d);
    assert forall i | 0 <= i < |a| :: a[i] == b[i];
  }

  lemma Utf8Step(text: string, rest: Bytes)
    requires text != ""
    ensures Utf8(text) + rest == EncodeChar(text[0]) + (Utf8(text[1..]) + rest)
  {
  }

  /** If two byte strings agree, the shorter of the texts they begin with is a prefix of the other. */
  lemma {:induction false} Utf8Ends(s: string, t: string, x: Bytes, y: Bytes)
    requires |Utf8(s)| <= |Utf8(t)| && Utf8(s) + x == Utf8(t) + y
    ensures s <= t && x == Utf8(t[|s|..]) + y
  {
    if s == "" {
      assert Utf8(s) + x == x;
      assert t[0..] == t;
    } else {
      Utf8Step(s, x);
      Utf8Step(t, y);
      CharEnds(s[0], t[0], Utf8(s[1..]) + x, Utf8(t[1..]) + y);
      Utf8Ends(s[1..], t[1..], x, y);
      assert s == [s[0]] + s[1..] && t == [t[0]] + t[1..];
      assert t[1..][|s| - 1..] == t[|s|..];
    }
  }

  lemma Utf8Injective(s: string, t: string)
    requires Utf8(s) == Utf8(t)
    ensures s == t
  {
    assert Utf8(s) + [] == Utf8(t) + [];
    Utf8Ends(s, t, [], []);
    Utf8Ends(t, s, [], []);
  }

  // ----- signing input -----

  const DOMAIN: string := "fg-agent-id/v1"

  const CONTEXT_DELEGATION: string := "delegation"
  const CONTEXT_REVOCATION: string := "revocation"
  const CONTEXT_KEY_REVOCATION: string := "key-revocation"
  const CONTEXT_KEY_ROTATION: string := "key-rotation"
  const CONTEXT_INCEPTION: string := "inception"

  const MAX_TAG_BYTES := 0xffff

  function DomainTag(context: string): Option<Bytes> {
    if context == "" then None
    else
      var tag := Utf8(DOMAIN + "/" + context);
      if |tag| > MAX_TAG_BYTES then None else Some(tag)
  }

  /** The exact bytes signed for a payload; None when the context is rejected. */
  function SigningInput(context: string, payload: Json): Option<Bytes> {
    match DomainTag(context)
    case None => None
    case Some(tag) => Some(LengthPrefix(|tag|) + tag + Utf8(Canonicalize(payload)))
  }

  function LengthPrefix(size: nat): (prefix: Bytes)
    requires size <= MAX_TAG_BYTES
    ensures |prefix| == 2
  {
    [size / 256 % 256, size % 256]
  }

  /** Rejected exactly when the context is empty or its tag too long; else the tag's length as two bytes, high byte
      first, the tag, and the canonical JSON. */
  lemma InputLayout(context: string, payload: Json)
    ensures
      var tag, input := Utf8("fg-agent-id/v1/" + context), SigningInput(context, payload);
      && (input.Some? <==> context != "" && |tag| <= 65535)
      && (input.Some? ==>
            && |input.value| >= 2 && input.value[0] as int * 256 + input.value[1] as int == |tag|
            && input.value[2..] == tag + Utf8(Canonicalize(payload)))
  {
    hide Utf8, Canonicalize;
    assert "fg-agent-id/v1/" + context == DOMAIN + "/" + context;
  }

  lemma LengthPrefixInjective(a: nat, b: nat)
    requires a <= MAX_TAG_BYTES && b <= MAX_TAG_BYTES && LengthPrefix(a) == LengthPrefix(b)
    ensures a == b
  {
    assert LengthPrefix(a)[0] == LengthPrefix(b)[0] && LengthPrefix(a)[1] == LengthPrefix(b)[1];
  }

  lemma TagInjective(a: string, b: string)
    requires DomainTag(a).Some? && DomainTag(a) == DomainTag(b)
    ensures a == b
  {
    Utf8Injective(DOMAIN + "/" + a, DOMAIN + "/" + b);
    var skip := |DOMAIN| + 1;
    assert (DOMAIN + "/" + a)[skip..] == a && (DOMAIN + "/" + b)[skip..] == b;
  }

  /** The length prefix separates the tag from the payload, whatever follows. */
  lemma TagEnds(a: string, b: string, x: Bytes, y: Bytes)
    requires DomainTag(a).Some? && DomainTag(b).Some?
    requires
      LengthPrefix(|DomainTag(a).value|) + DomainTag(a).value + x ==
      LengthPrefix(|DomainTag(b).value|) + DomainTag(b).value + y
    ensures a == b && x == y
  {
    var s, t := DomainTag(a).value, DomainTag(b).value;
    var left, right := LengthPrefix(|s|) + s + x, LengthPrefix(|t|) + t + y;
    assert LengthPrefix(|s|) == left[..2] == right[..2] == LengthPrefix(|t|);
    LengthPrefixInjective(|s|, |t|);
    assert s == left[2..][..|s|] == right[2..][..|t|] == t;
    assert x == left[2 + |s|..] && y == right[2 + |t|..];
    TagInjective(a, b);
  }

  /** Equal signing inputs mean equal context and, key order aside, equal payload. */
  lemma OneInputPerArtifact(a: string, p: Json, b: string, q: Json)
    requires WellFormed(p) && WellFormed(q)
    requires SigningInput(a, p).Some? && SigningInput(b, q).Some?
    ensures SigningInput(a, p) == SigningInput(b, q) <==> a == b && Same(p, q)
  {
    if SigningInput(a, p) == SigningInput(b, q) {
      TagEnds(a, b, Utf8(Canonicalize(p)), Utf8(Canonicalize(q)));
      Utf8Injective(Canonicalize(p), Canonicalize(q));
    }
    OneTextPerValue(p, q);
  }

  /** The input for an object payload shows its own end: appended bytes can be told apart from it. */
  lemma ObjectInputEnds(a: string, p: Json, b: string, q: Json, x: Bytes, y: Bytes)
    requires WellFormed(p) && WellFormed(q) && p.Obj? && q.Obj?
    requires SigningInput(a, p).Some? && SigningInput(b, q).Some?
    requires SigningInput(a, p).value + x == SigningInput(b, q).value + y
    ensures a == b && Same(p, q) && x == y
  {
    var s, t := Canonicalize(p), Canonicalize(q);
    Regroup(DomainTag(a).value, Utf8(s), x);
    Regroup(DomainTag(b).value, Utf8(t), y);
    hide DomainTag, LengthPrefix, Utf8, Canonicalize, WellFormed, Same;
    TagEnds(a, b, Utf8(s) + x, Utf8(t) + y);
    ObjectTextEnds(p, q, x, y);
    OneTextPerValue(p, q);
  }

  lemma ObjectTextEnds(p: Json, q: Json, x: Bytes, y: Bytes)
    requires p.Obj? && q.Obj? && Utf8(Canonicalize(p)) + x == Utf8(Canonicalize(q)) + y
    ensures Canonicalize(p) == Canonicalize(q) && x == y
  {
    hide Utf8, Canonicalize;
    var s, t := Canonicalize(p), Canonicalize(q);
    if |Utf8(s)| <= |Utf8(t)| {
      Utf8Ends(s, t, x, y);
      assert s + t[|s|..] == t + "";
      BracketEnds(p, q, t[|s|..], "");
    } else {
      Utf8Ends(t, s, y, x);
      assert t + s[|t|..] == s + "";
      BracketEnds(p, q, "", s[|t|..]);
    }
  }

  lemma Regroup(tag: Bytes, text: Bytes, rest: Bytes)
    requires |tag| <= MAX_TAG_BYTES
    ensures LengthPrefix(|tag|) + tag + text + rest == LengthPrefix(|tag|) + tag + (text + rest)
  {
  }
}
