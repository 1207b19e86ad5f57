/** Base58 in the Bitcoin alphabet, and the self-certifying addresses built on it. */
module Base58 {
  import opened Wrappers
  import opened Text
  import opened Positional
  import opened Alphabets

  const ALPHABET: string :=
    "123456789" + "ABCDEFGH" + "JKLMN" + "PQRSTUVWXYZ" + "abcdefghijk" + "mnopqrstuvwxyz"

  function Offset(i: nat): int {
    if i < 9 then '1' as int
    else if i < 17 then 'A' as int - 9
    else if i < 22 then 'J' as int - 17
    else if i < 33 then 'P' as int - 22
    else if i < 44 then 'a' as int - 33
    else 'm' as int - 44
  }

  lemma SymbolAt(i: nat)
    requires i < 58
    ensures |ALPHABET| == 58
    ensures ALPHABET[i] as int == Offset(i) + i
  {
    assert forall k | 0 <= k < 9 :: "123456789"[k] as int == '1' as int + k;
    assert forall k | 0 <= k < 8 :: "ABCDEFGH"[k] as int == 'A' as int + k;
    assert forall k | 0 <= k < 5 :: "JKLMN"[k] as int == 'J' as int + k;
    assert forall k | 0 <= k < 11 :: "PQRSTUVWXYZ"[k] as int == 'P' as int + k;
    assert forall k | 0 <= k < 11 :: "abcdefghijk"[k] as int == 'a' as int + k;
    assert forall k | 0 <= k < 14 :: "mnopqrstuvwxyz"[k] as int == 'm' as int + k;
  }

  /** The alphabet has 58 distinct symbols and starts with the zero digit. */
  lemma AlphabetIsDistinct()
    ensures |ALPHABET| == 58 && Distinct(ALPHABET) && ALPHABET[0] == '1'
  {
    SymbolAt(0);
    forall i, j | 0 <= i < j < 58
      ensures ALPHABET[i] != ALPHABET[j]
    {
      SymbolAt(i);
      SymbolAt(j);
    }
  }

  function Encode(data: Bytes): string {
    AlphabetIsDistinct();
    Symbols(ALPHABET, Convert(256, 58, data))
  }

  function Decode(text: string): Option<Bytes> {
    if Over(ALPHABET, text) then Some(Convert(58, 256, DigitsOf(ALPHABET, text))) else None
  }

  /** Every byte sequence survives encoding, leading zeros, all-zero and empty inputs included. */
  lemma DecodeInvertsEncode(data: Bytes)
    ensures Decode(Encode(data)) == Some(data)
  {
    AlphabetIsDistinct();
    SymbolsInvert(ALPHABET, Convert(256, 58, data));
    ConvertBack(256, 58, data);
  }

  /** Every text over the alphabet is the encoding of what it decodes to, and no other text decodes. */
  lemma EncodeInvertsDecode(text: string)
    ensures Decode(text).Some? <==> forall c | c in text :: c in ALPHABET
    ensures Decode(text).Some? ==> Encode(Decode(text).value) == text
  {
    if Over(ALPHABET, text) {
      AlphabetIsDistinct();
      ConvertBack(58, 256, DigitsOf(ALPHABET, text));
      DigitsInvert(ALPHABET, text);
    }
  }

  method CountLeading<T(==)>(items: seq<T>, zero: T) returns (pad: nat)
    ensures pad <= |items|
    ensures forall i | 0 <= i < pad :: items[i] == zero
    ensures pad < |items| ==> items[pad] != zero
  {
    pad := 0;
    while pad < |items| && items[pad] == zero
      invariant pad <= |items|
      invariant forall i | 0 <= i < pad :: items[i] == zero
    {
      pad := pad + 1;
    }
  }

  /** The big-endian fold both implementations start with. */
  method Fold(base: nat, digits: seq<nat>) returns (num: nat)
    ensures num == Value(base, digits)
  {
    num := 0;
    for i := 0 to |digits|
      invariant num == Value(base, digits[..i])
    {
      assert digits[..i + 1][..i] == digits[..i];
      num := num * base + digits[i];
    }
    assert digits[..|digits|] == digits;
  }

  /** Peels symbols off by repeated division. */
  method UnfoldText(alphabet: string, n: nat) returns (text: string)
    requires |alphabet| == 58
    ensures text == Symbols(alphabet, Digits(58, n))
  {
    var num := n;
    ghost var digits: seq<nat> := [];
    text := "";
    while num > 0
      invariant IsNumeral(58, digits) && text == Symbols(alphabet, digits)
      invariant Digits(58, num) + digits == Digits(58, n)
    {
      Quotient(58, num);
      assert Digits(58, num) + digits == Digits(58, num / 58) + ([num % 58] + digits);
      digits := [num % 58] + digits;
      text := [alphabet[num % 58]] + text;
      num := num / 58;
    }
  }

  method EncodeByDivision(data: Bytes) returns (text: string)
    ensures text == Encode(data)
  {
    AlphabetIsDistinct();
    var num := Fold(256, data);
    text := UnfoldText(ALPHABET, num);
    var pad := CountLeading(data, 0);
    LeadingZerosAre(data, pad);
    text := seq(pad, _ => '1') + text;
  }

  /** Folds the text, failing on a character outside the alphabet. */
  method FoldText(alphabet: string, text: string) returns (num: Option<nat>)
    ensures num == if Over(alphabet, text) then Some(Value(|alphabet|, DigitsOf(alphabet, text))) else None
  {
    var n := 0;
    for i := 0 to |text|
      invariant Over(alphabet, text[..i]) && n == Value(|alphabet|, DigitsOf(alphabet, text[..i]))
    {
      var index := IndexOf(alphabet, text[i]);
      if index < 0 {
        return None;
      }
      assert Over(alphabet, text[..i + 1]);
      assert DigitsOf(alphabet, text[..i + 1])[..i] == DigitsOf(alphabet, text[..i]);
      n := n * |alphabet| + index;
    }
    assert text[..|text|] == text;
    return Some(n);
  }

  lemma OnesAreZeroDigits(text: string, pad: nat)
    requires Over(ALPHABET, text) && pad <= |text|
    requires forall i | 0 <= i < pad :: text[i] == '1'
    requires pad < |text| ==> text[pad] != '1'
    ensures LeadingZeros(DigitsOf(ALPHABET, text)) == pad
  {
    AlphabetIsDistinct();
    forall i | 0 <= i < |text|
      ensures DigitsOf(ALPHABET, text)[i] == 0 <==> text[i] == '1'
    {
      IndexOfDistinct(ALPHABET, 0);
    }
    LeadingZerosAre(DigitsOf(ALPHABET, text), pad);
  }

  /** Peels bytes off by repeated division. */
  method Unfold(n: nat) returns (bytes: Bytes)
    ensures bytes == Digits(256, n)
  {
    var num := n;
    bytes := [];
    while num > 0
      invariant Digits(256, num) + bytes == Digits(256, n)
    {
      Quotient(256, num);
      bytes := [num % 256] + bytes;
      num := num / 256;
    }
  }

  /** The repeated-division decoder of the TypeScript package. */
  method DecodeByDivision(text: string) returns (data: Option<Bytes>)
    ensures data == Decode(text)
  {
    AlphabetIsDistinct();
    var folded := FoldText(ALPHABET, text);
    if folded.None? {
      return None;
    }
    var bytes := Unfold(folded.value);
    var pad := CountLeading(text, '1');
    OnesAreZeroDigits(text, pad);
    return Some(Zeros(pad) + bytes);
  }

  function BitLength(n: nat): nat {
    if n == 0 then 0 else 1 + BitLength(n / 2)
  }

  /** The big-endian digits of n in exactly `width` bytes. */
  function ToBytes(n: nat, width: nat): (bytes: seq<nat>)
    ensures IsNumeral(256, bytes) && |bytes| == width
  {
    if width == 0 then [] else ToBytes(n / 256, width - 1) + [n % 256]
  }

  lemma BitLengthOfByte(n: nat)
    requires 0 < n < 256
    ensures 1 <= BitLength(n) <= 8
  {
    var h := n / 2;
    var h2 := h / 2;
    var h3 := h2 / 2;
    var h4 := h3 / 2;
    var h5 := h4 / 2;
    var h6 := h5 / 2;
    var h7 := h6 / 2;
    assert BitLength(h7) <= 1;
    assert BitLength(h6) <= 2;
    assert BitLength(h5) <= 3;
    assert BitLength(h4) <= 4;
    assert BitLength(h3) <= 5;
  }

  lemma BitLengthShift(n: nat)
    requires n >= 256
    ensures BitLength(n) == 8 + BitLength(n / 256)
  {
    var h := n / 2;
    var h2 := h / 2;
    var h3 := h2 / 2;
    var h4 := h3 / 2;
    var h5 := h4 / 2;
    var h6 := h5 / 2;
    var h7 := h6 / 2;
    assert BitLength(n) == 2 + BitLength(h2);
    assert BitLength(h2) == 2 + BitLength(h4);
    assert BitLength(h4) == 2 + BitLength(h6);
    assert BitLength(h6) == 2 + BitLength(h7 / 2);
  }

  lemma ShortestWidth(n: nat)
    ensures ToBytes(n, (BitLength(n) + 7) / 8) == Digits(256, n)
  {
    if 0 < n < 256 {
      BitLengthOfByte(n);
    } else if n >= 256 {
      BitLengthShift(n);
      ShortestWidth(n / 256);
    }
  }

  method ToShortestBytes(num: nat) returns (bytes: Bytes)
    ensures bytes == Digits(256, num)
  {
    ShortestWidth(num);
    bytes := ToBytes(num, (BitLength(num) + 7) / 8);
  }

  /** The Python decoder, which sizes the output from the bit length, decodes to the same bytes. */
  method DecodeByBitLength(text: string) returns (data: Option<Bytes>)
    ensures data == Decode(text)
  {
    AlphabetIsDistinct();
    var folded := FoldText(ALPHABET, text);
    if folded.None? {
      return None;
    }
    var decoded := ToShortestBytes(folded.value);
    var pad := CountLeading(text, '1');
    OnesAreZeroDigits(text, pad);
    return Some(Zeros(pad) + decoded);
  }

  const ADDRESS_PREFIX: string := "amp:key:"

  function AddressFromSigningKey(key: Bytes): Option<string> {
    if |key| == 32 then Some(ADDRESS_PREFIX + Encode(key)) else None
  }

  function SigningKeyFromAddress(address: string): Option<Bytes> {
    if !(ADDRESS_PREFIX <= address) then None
    else
      match Decode(address[|ADDRESS_PREFIX|..])
      case None => None
      case Some(key) => if |key| == 32 then Some(key) else None
  }

  /** Addresses and 32-byte keys correspond one to one: each key has exactly one address. */
  lemma AddressesNameKeys(address: string, key: Bytes)
    ensures SigningKeyFromAddress(address) == Some(key) <==> AddressFromSigningKey(key) == Some(address)
    ensures AddressFromSigningKey(key) == if |key| == 32 then Some("amp:key:" + Encode(key)) else None
  {
    hide Encode, Decode;
    if ADDRESS_PREFIX <= address {
      var body := address[|ADDRESS_PREFIX|..];
      assert address == ADDRESS_PREFIX + body;
      EncodeInvertsDecode(body);
      DecodeInvertsEncode(key);
      assert Decode(body) == Some(key) <==> Encode(key) == body;
      assert ADDRESS_PREFIX + Encode(key) == address <==> Encode(key) == body by {
        PrefixCancels(ADDRESS_PREFIX, Encode(key), body);
      }
    } else {
      assert ADDRESS_PREFIX <= ADDRESS_PREFIX + Encode(key);
    }
  }
}
