/** The published conformance vectors for the encoders. */
module Vectors {
  import opened Wrappers
  import opened Positional
  import opened Alphabets
  import opened Text
  import opened CanonicalJson
  import opened Signing
  import Base58
  import Base64

  lemma SmallNumbers()
    ensures Canonicalize(Int(1)) == "1" && Canonicalize(Int(2)) == "2" && Canonicalize(Int(3)) == "3"
  {
    DecimalIsDistinct();
  }

  lemma ByFirst(a: string, b: string)
    requires a != "" && b != "" && a[0] < b[0]
    ensures Precedes(a, b)
  {
    PrecedesByChar(a, b, 0);
  }

  lemma OneEntry(f: Field)
    ensures Join(Entries([f]), ',') == Entry(f)
  {
    hide Entry;
  }

  lemma TwoEntries(f: Field, g: Field)
    ensures Join(Entries([f, g]), ',') == Entry(f) + "," + Entry(g)
  {
    hide Entry, Join;
    assert Entries([f, g]) == [Entry(f)] + [Entry(g)];
    JoinAppends([Entry(f)], [Entry(g)], ',');
    JoinOne(Entry(f));
  }

  lemma JoinOne(text: string)
    ensures Join([text], ',') == text
  {
  }

  lemma ThreeEntries(f: Field, g: Field, h: Field)
    ensures Join(Entries([f, g, h]), ',') == Entry(f) + "," + Entry(g) + "," + Entry(h)
  {
    hide Entry, Join;
    TwoEntries(f, g);
    assert Entries([f, g, h]) == Entries([f, g]) + [Entry(h)];
    JoinAppends(Entries([f, g]), [Entry(h)], ',');
  }

  lemma PlainLetter(key: string)
    requires |key| == 1 && 'a' <= key[0] <= 'z'
    ensures IsPlain(key)
  {
  }

  /** {"z": 1, "a": 2, "m": 3} */
  lemma ThreeNumbers()
    ensures Canonicalize(Obj([Field("z", Int(1)), Field("a", Int(2)), Field("m", Int(3))])) ==
      "{\"a\":2,\"m\":3,\"z\":1}"
  {
    var z, a, m := Field("z", Int(1)), Field("a", Int(2)), Field("m", Int(3));
    hide Canonicalize, Precedes, IsPlain, Join, Entries, Entry, Labelled;
    SmallNumbers();
    ByFirst("a", "m");
    ByFirst("m", "z");
    PlainLetter("a");
    PlainLetter("m");
    PlainLetter("z");
    assert multiset([a, m, z]) == multiset([z, a, m]);
    RecordText([z, a, m], [a, m, z]);
    ThreeEntries(a, m, z);
    EntryIs("a", Int(2), "2");
    EntryIs("m", Int(3), "3");
    EntryIs("z", Int(1), "1");
    ThreeNumbersText();
  }

  lemma ThreeNumbersText()
    ensures "{" + (Labelled("a", "2") + "," + Labelled("m", "3") + "," + Labelled("z", "1")) + "}" ==
      "{\"a\":2,\"m\":3,\"z\":1}"
  {
  }

  lemma ArrayText(items: seq<Json>)
    ensures Canonicalize(Arr(items)) == "[" + Join(ItemTexts(items), ',') + "]"
  {
  }

  lemma ThreeItems(a: Json, b: Json, c: Json)
    ensures Join(ItemTexts([a, b, c]), ',') == Canonicalize(a) + "," + Canonicalize(b) + "," + Canonicalize(c)
  {
    hide Join, Canonicalize;
    var x, y, z := Canonicalize(a), Canonicalize(b), Canonicalize(c);
    assert ItemTexts([a, b, c]) == [x] + [y] + [z];
    JoinOne(x);
    JoinAppends([x], [y], ',');
    JoinAppends([x] + [y], [z], ',');
  }

  lemma TwoItems(a: Json, b: Json)
    ensures Join(ItemTexts([a, b]), ',') == Canonicalize(a) + "," + Canonicalize(b)
  {
    hide Join, Canonicalize;
    var x, y := Canonicalize(a), Canonicalize(b);
    assert ItemTexts([a, b]) == [x] + [y];
    JoinOne(x);
    JoinAppends([x], [y], ',');
  }

  lemma Umlaut()
    ensures Canonicalize(Str("\U{FC}")) == "\"\U{FC}\"" && Utf8("\U{FC}") == [0xC3, 0xBC]
  {
    PlainEscape("\U{FC}");
  }

  /** {"b": 1, "a": "ü", "c": [3, 2, 1]} */
  lemma MixedValues()
    ensures Canonicalize(Obj([
      Field("b", Int(1)),
      Field("a", Str("\U{FC}")),
      Field("c", Arr([Int(3), Int(2), Int(1)]))])) == "{\"a\":\"\U{FC}\",\"b\":1,\"c\":[3,2,1]}"
  {
    var items := Arr([Int(3), Int(2), Int(1)]);
    var b, a, c := Field("b", Int(1)), Field("a", Str("\U{FC}")), Field("c", items);
    hide Canonicalize, Precedes, IsPlain, Join, Entries, Entry, Labelled;
    SmallNumbers();
    Umlaut();
    ArrayText([Int(3), Int(2), Int(1)]);
    ThreeItems(Int(3), Int(2), Int(1));
    assert Canonicalize(items) == "[3,2,1]";
    ByFirst("a", "b");
    ByFirst("b", "c");
    PlainLetter("a");
    PlainLetter("b");
    PlainLetter("c");
    assert multiset([a, b, c]) == multiset([b, a, c]);
    RecordText([b, a, c], [a, b, c]);
    ThreeEntries(a, b, c);
    EntryIs("a", Str("\U{FC}"), "\"\U{FC}\"");
    EntryIs("b", Int(1), "1");
    EntryIs("c", items, "[3,2,1]");
    MixedValuesText();
  }

  lemma MixedValuesText()
    ensures "{" + (Labelled("a", "\"\U{FC}\"") + "," + Labelled("b", "1") + "," + Labelled("c", "[3,2,1]")) + "}" ==
      "{\"a\":\"\U{FC}\",\"b\":1,\"c\":[3,2,1]}"
  {
  }

  lemma OneField(key: string, value: Json, text: string)
    requires IsPlain(key) && Canonicalize(value) == text
    ensures Canonicalize(Obj([Field(key, value)])) == "{" + Labelled(key, text) + "}"
  {
    hide Canonicalize, IsPlain, Join, Entries, Entry, Labelled;
    var f := Field(key, value);
    RecordText([f], [f]);
    OneEntry(f);
    EntryIs(key, value, text);
  }

  lemma Literals()
    ensures Canonicalize(Bool(true)) == "true" && Canonicalize(Bool(false)) == "false" && Canonicalize(Null) == "null"
  {
  }

  lemma TrueText()
    ensures "{" + Labelled("x", "true") + "}" == "{\"x\":true}"
  {
  }

  lemma InnerText()
    ensures "[" + ("1" + "," + "{\"x\":true}") + "]" == "[1,{\"x\":true}]"
  {
  }

  lemma MiddleText()
    ensures "{" + (Labelled("w", "null") + "," + Labelled("y", "[1,{\"x\":true}]")) + "}" ==
      "{\"w\":null,\"y\":[1,{\"x\":true}]}"
  {
  }

  lemma OuterText(inner: string)
    ensures "{" + Labelled("nested", inner) + "}" == "{\"nested\":" + inner + "}"
  {
    assert "{" + ("\"" + "nested" + "\":") == "{\"nested\":";
    assert "{" + ("\"" + "nested" + "\":" + inner) + "}" == "{" + ("\"" + "nested" + "\":") + inner + "}";
  }

  const INNER: string := "{\"w\":null,\"y\":[1,{\"x\":true}]}"

  lemma InnerItems()
    ensures Canonicalize(Arr([Int(1), Obj([Field("x", Bool(true))])])) == "[1,{\"x\":true}]"
  {
    hide Canonicalize, IsPlain, Join, Labelled;
    var x := Obj([Field("x", Bool(true))]);
    SmallNumbers();
    Literals();
    TrueText();
    InnerText();
    PlainLetter("x");
    OneField("x", Bool(true), "true");
    ArrayText([Int(1), x]);
    TwoItems(Int(1), x);
  }

  lemma InnerObject(items: Json, text: string)
    requires Canonicalize(items) == text
    ensures Canonicalize(Obj([Field("y", items), Field("w", Null)])) ==
      "{" + (Labelled("w", "null") + "," + Labelled("y", text)) + "}"
  {
    hide Canonicalize, Precedes, IsPlain, Join, Entries, Entry, Labelled;
    var y, w := Field("y", items), Field("w", Null);
    Literals();
    PlainLetter("w");
    PlainLetter("y");
    ByFirst("w", "y");
    assert multiset([w, y]) == multiset([y, w]);
    RecordText([y, w], [w, y]);
    TwoEntries(w, y);
    EntryIs("w", Null, "null");
    EntryIs("y", items, text);
  }

  lemma NestedIsPlain()
    ensures IsPlain("nested")
  {
  }

  /** {"nested": {"y": [1, {"x": true}], "w": null}} */
  lemma NestedValues()
    ensures Canonicalize(Obj([Field("nested", Obj([
      Field("y", Arr([Int(1), Obj([Field("x", Bool(true))])])),
      Field("w", Null)]))])) == "{\"nested\":" + INNER + "}"
  {
    var items := Arr([Int(1), Obj([Field("x", Bool(true))])]);
    InnerItems();
    MiddleText();
    OuterText(INNER);
    NestedIsPlain();
    hide Canonicalize, IsPlain, Labelled;
    InnerObject(items, "[1,{\"x\":true}]");
    OneField("nested", Obj([Field("y", items), Field("w", Null)]), INNER);
  }

  function Ascii(text: string): Bytes
    requires forall i | 0 <= i < |text| :: text[i] as int < 128
  {
    seq(|text|, i requires 0 <= i < |text| => text[i] as int)
  }

  lemma {:induction false} AsciiBytes(text: string)
    requires forall i | 0 <= i < |text| :: text[i] as int < 128
    ensures Utf8(text) == Ascii(text)
  {
    if text != "" {
      AsciiBytes(text[1..]);
      assert text == [text[0]] + text[1..];
      assert Ascii(text) == [text[0] as int] + Ascii(text[1..]);
    }
  }

  lemma OneText()
    ensures "{" + Labelled("a", "1") + "}" == "{\"a\":1}"
  {
  }

  lemma DelegationTag()
    ensures "fg-agent-id/v1/" + "delegation" == "fg-agent-id/v1/delegation"
    ensures forall i | 0 <= i < |"fg-agent-id/v1/delegation"| :: "fg-agent-id/v1/delegation"[i] as int < 128
  {
  }

  lemma CardTag()
    ensures "fg-agent-id/v1/" + "agent-card" == "fg-agent-id/v1/agent-card"
    ensures forall i | 0 <= i < |"fg-agent-id/v1/agent-card"| :: "fg-agent-id/v1/agent-card"[i] as int < 128
  {
  }

  /** The payload {"a": 1} under two contexts: 25 is the length of either tag. */
  lemma SigningInputs()
    ensures
      var payload := Obj([Field("a", Int(1))]);
      && SigningInput("delegation", payload) ==
         Some([0, 25] + Utf8("fg-agent-id/v1/delegation") + Utf8("{\"a\":1}"))
      && SigningInput("agent-card", payload) ==
         Some([0, 25] + Utf8("fg-agent-id/v1/agent-card") + Utf8("{\"a\":1}"))
  {
    var payload := Obj([Field("a", Int(1))]);
    OneText();
    SmallNumbers();
    PlainLetter("a");
    DelegationTag();
    CardTag();
    hide Canonicalize, IsPlain, Labelled, SigningInput, Utf8;
    OneField("a", Int(1), "1");
    InputIs("delegation", payload, "fg-agent-id/v1/delegation");
    InputIs("agent-card", payload, "fg-agent-id/v1/agent-card");
  }

  lemma InputIs(context: string, payload: Json, tag: string)
    requires context != "" && tag == "fg-agent-id/v1/" + context && |tag| == 25
    requires forall i | 0 <= i < |tag| :: tag[i] as int < 128
    ensures SigningInput(context, payload) == Some([0, 25] + Utf8(tag) + Utf8(Canonicalize(payload)))
  {
    hide Canonicalize, Utf8, SigningInput;
    InputLayout(context, payload);
    AsciiBytes(tag);
    var input := SigningInput(context, payload).value;
    assert |Utf8(tag)| == 25;
    assert input[0] == 0 && input[1] == 25;
    assert input == [input[0], input[1]] + input[2..];
    assert [0, 25] + Utf8(tag) + Utf8(Canonicalize(payload)) == [0, 25] + (Utf8(tag) + Utf8(Canonicalize(payload)));
  }

  lemma ShortDigits()
    ensures Digits(58, 1) == [1]
    ensures Digits(58, 65535) == [19, 27, 53]
  {
    assert Digits(58, 1) == Digits(58, 0) + [1];
    assert Digits(58, 19) == Digits(58, 0) + [19];
    assert Digits(58, 1129) == Digits(58, 19) + [27];
    assert Digits(58, 65535) == Digits(58, 1129) + [53];
  }

  lemma ShortValues()
    ensures Value(256, [0, 0, 1]) == 1 && Value(256, [0xFF, 0xFF]) == 65535
  {
    assert [0, 0, 1][..2] == [0, 0] && [0, 0][..1] == [0];
    assert [0xFF, 0xFF][..1] == [0xFF];
    assert Value(256, [0]) == 0 && Value(256, [0, 0]) == 0 && Value(256, [0xFF]) == 255;
  }

  lemma ShortConversions()
    ensures Convert(256, 58, [0, 0, 1]) == [0, 0, 1]
    ensures Convert(256, 58, [0xFF, 0xFF]) == [19, 27, 53]
  {
    hide Value, Digits, LeadingZeros, Zeros;
    ShortValues();
    ShortDigits();
    LeadingZerosAre([0, 0, 1], 2);
    LeadingZerosAre([0xFF, 0xFF], 0);
    assert Zeros(2) + [1] == [0, 0, 1];
    assert Zeros(0) + [19, 27, 53] == [19, 27, 53];
  }

  lemma FiveSymbols()
    ensures |Base58.ALPHABET| == 58 && Base58.ALPHABET[0] == '1' && Base58.ALPHABET[1] == '2'
    ensures Base58.ALPHABET[19] == 'L' && Base58.ALPHABET[27] == 'U' && Base58.ALPHABET[53] == 'v'
  {
  }

  lemma SpelledInAlphabet(alphabet: string)
    requires |alphabet| == 58 && alphabet[0] == '1' && alphabet[1] == '2'
    requires alphabet[19] == 'L' && alphabet[27] == 'U' && alphabet[53] == 'v'
    ensures Symbols(alphabet, [0, 0, 1]) == "112" && Symbols(alphabet, [19, 27, 53]) == "LUv"
  {
  }

  /** Bytes 00 00 01, and ff ff. */
  lemma Base58Texts()
    ensures Base58.Encode([0, 0, 1]) == "112"
    ensures Base58.Encode([0xFF, 0xFF]) == "LUv"
  {
    ShortConversions();
    FiveSymbols();
    hide Convert, Symbols, Base58.ALPHABET;
    SpelledInAlphabet(Base58.ALPHABET);
  }

  lemma SixSymbols()
    ensures Base64.B64[25] == 'Z' && Base64.B64[32] == 'g' && Base64.B64[38] == 'm' && Base64.B64[47] == 'v'
    ensures Base64.B64[60] == '8' && Base64.B64[61] == '9'
  {
  }

  lemma SextetsOfFoo()
    ensures Base64.GroupOf([0x66]) == [25, 32]
    ensures Base64.GroupOf([0x66, 0x6F]) == [25, 38, 60]
    ensures Base64.GroupOf([0x66, 0x6F, 0x6F]) == [25, 38, 61, 47]
  {
  }

  lemma OneGroup(alphabet: string, bytes: Bytes)
    requires |alphabet| == 64 && 1 <= |bytes| <= 3
    ensures Base64.EncodeOver(alphabet, bytes) == Symbols(alphabet, Base64.GroupOf(bytes)) + Base64.Padding(|bytes|)
  {
  }

  lemma SymbolsOfFoo(alphabet: string)
    requires |alphabet| == 64 && alphabet[25] == 'Z' && alphabet[32] == 'g' && alphabet[38] == 'm'
    requires alphabet[47] == 'v' && alphabet[60] == '8' && alphabet[61] == '9'
    ensures Symbols(alphabet, [25, 32]) == "Zg" && Symbols(alphabet, [25, 38, 60]) == "Zm8"
    ensures Symbols(alphabet, [25, 38, 61, 47]) == "Zm9v"
  {
  }

  /** Section 10 of RFC 4648: f, fo and foo. */
  lemma Base64Texts()
    ensures Base64.Encode([0x66]) == "Zg==" && Base64.Encode([0x66, 0x6F]) == "Zm8="
    ensures Base64.Encode([0x66, 0x6F, 0x6F]) == "Zm9v"
  {
    Base64.AlphabetIsDistinct();
    SixSymbols();
    SextetsOfFoo();
    assert Base64.Padding(1) == "==" && Base64.Padding(2) == "=" && Base64.Padding(3) == "";
    hide Base64.B64, Base64.EncodeOver, Base64.GroupOf, Base64.Padding, Symbols;
    OneGroup(Base64.B64, [0x66]);
    OneGroup(Base64.B64, [0x66, 0x6F]);
    OneGroup(Base64.B64, [0x66, 0x6F, 0x6F]);
    SymbolsOfFoo(Base64.B64);
  }
}
