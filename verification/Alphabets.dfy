/** Texts over an alphabet of distinct symbols, and the numerals they spell. */
module Alphabets {
  import opened Positional

  /** The least position of c in text, or -1. */
  function IndexOf(text: string, c: char): (i: int)
    ensures -1 <= i < |text|
    ensures i >= 0 ==> text[i] == c && c !in text[..i]
    ensures i == -1 <==> c !in text
  {
    if text == [] then -1
    else if text[0] == c then 0
    else
      var i := IndexOf(text[1..], c);
      if i < 0 then -1 else
        assert text[..i + 1] == [text[0]] + text[1..][..i];
        i + 1
  }

  ghost predicate Distinct<T>(items: seq<T>) {
    forall i, j | 0 <= i < j < |items| :: items[i] != items[j]
  }

  lemma IndexOfDistinct(text: string, i: nat)
    requires Distinct(text) && i < |text|
    ensures IndexOf(text, text[i]) == i
  {
  }

  predicate Over(alphabet: string, text: string) {
    forall c | c in text :: c in alphabet
  }

  function Symbols(alphabet: string, digits: seq<nat>): (text: string)
    requires IsNumeral(|alphabet|, digits)
    ensures |text| == |digits|
  {
    seq(|digits|, i requires 0 <= i < |digits| => alphabet[digits[i]])
  }

  function DigitsOf(alphabet: string, text: string): (digits: seq<nat>)
    requires Over(alphabet, text)
    ensures IsNumeral(|alphabet|, digits) && |digits| == |text|
  {
    seq(|text|, i requires 0 <= i < |text| => IndexOf(alphabet, text[i]))
  }

  lemma SymbolsInvert(alphabet: string, digits: seq<nat>)
    requires Distinct(alphabet) && IsNumeral(|alphabet|, digits)
    ensures Over(alphabet, Symbols(alphabet, digits))
    ensures DigitsOf(alphabet, Symbols(alphabet, digits)) == digits
  {
    forall i | 0 <= i < |digits|
      ensures IndexOf(alphabet, Symbols(alphabet, digits)[i]) == digits[i]
    {
      IndexOfDistinct(alphabet, digits[i]);
    }
  }

  lemma DigitsInvert(alphabet: string, text: string)
    requires Over(alphabet, text)
    ensures Symbols(alphabet, DigitsOf(alphabet, text)) == text
  {
  }

  lemma DigitsOfConcat(alphabet: string, a: string, b: string)
    requires Over(alphabet, a) && Over(alphabet, b)
    ensures Over(alphabet, a + b)
    ensures DigitsOf(alphabet, a + b) == DigitsOf(alphabet, a) + DigitsOf(alphabet, b)
  {
    hide IndexOf;
    var both := a + b;
    assert forall c | c in both :: c in a || c in b;
    assert forall i | 0 <= i < |both| :: both[i] == if i < |a| then a[i] else b[i - |a|];
  }
}
