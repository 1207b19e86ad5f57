/** Exact decimal amounts, kept as the text they were written in. */
module Amounts {
  import opened Wrappers
  import opened Positional
  import opened Alphabets
  import opened Text
  import opened CanonicalJson

  const MAX_AMOUNT_CHARS := 40

  predicate AllDigits(text: string) {
    text != "" && Over(DECIMAL, text)
  }

  /** Digits, then optionally a point and more digits: no sign, no exponent, no bare point. */
  predicate IsDecimal(text: string) {
    AllDigits(text) || exists i | 0 <= i < |text| :: text[i] == '.' && AllDigits(text[..i]) && AllDigits(text[i + 1..])
  }

  type Amount = text: string | |text| <= MAX_AMOUNT_CHARS && IsDecimal(text) witness "0"

  function ParseAmount(text: string): Option<Amount> {
    if |text| <= MAX_AMOUNT_CHARS && IsDecimal(text) then Some(text) else None
  }

  // ----- what an amount denotes -----

  function WholeOf(text: string): string {
    Split(text, '.')[0]
  }

  function FractionOf(text: string): string {
    var parts := Split(text, '.');
    if |parts| > 1 then parts[1] else ""
  }

  function Spelled(whole: string, fraction: string): string {
    if fraction == "" then whole else whole + "." + fraction
  }

  lemma SpelledParts(whole: string, fraction: string)
    requires AllDigits(whole) && Over(DECIMAL, fraction)
    ensures IsDecimal(Spelled(whole, fraction))
    ensures WholeOf(Spelled(whole, fraction)) == whole && FractionOf(Spelled(whole, fraction)) == fraction
  {
    SplitPart(whole, '.');
    if fraction != "" {
      SplitPart(fraction, '.');
      SplitFirst(whole, fraction, '.');
      var text := Spelled(whole, fraction);
      assert text[..|whole|] == whole && text[|whole|] == '.' && text[|whole| + 1..] == fraction;
      hide Split;
      assert text == whole + ['.'] + fraction;
    }
  }

  lemma PartsSpell(text: string)
    requires IsDecimal(text)
    ensures AllDigits(WholeOf(text)) && Over(DECIMAL, FractionOf(text))
    ensures text == Spelled(WholeOf(text), FractionOf(text))
  {
    if AllDigits(text) {
      assert Over(DECIMAL, "");
      hide *;
      SpelledParts(text, "");
      SpelledEmpty(text);
    } else {
      var i :| 0 <= i < |text| && text[i] == '.' && AllDigits(text[..i]) && AllDigits(text[i + 1..]);
      assert Over(DECIMAL, text[i + 1..]);
      hide *;
      SpelledParts(text[..i], text[i + 1..]);
      SpelledAt(text, i);
    }
  }

  lemma SpelledEmpty(whole: string)
    ensures Spelled(whole, "") == whole
  {
  }

  lemma SpelledAt(text: string, i: nat)
    requires i < |text| && text[i] == '.' && AllDigits(text[i + 1..])
    ensures Spelled(text[..i], text[i + 1..]) == text
  {
    assert text == text[..i] + "." + text[i + 1..];
  }

  function Power(n: nat): (p: nat)
    ensures p >= 1
  {
    if n == 0 then 1 else Power(n - 1) * 10
  }

  /** The number a digit sequence denotes after the point: each digit weighs a tenth of the one before. */
  ghost function FractionValue(digits: seq<nat>): real {
    if digits == [] then 0.0
    else FractionValue(digits[..|digits| - 1]) + digits[|digits| - 1] as real / Power(|digits|) as real
  }

  /** The rational number an amount denotes. */
  ghost function ValueOf(text: string): real
    requires IsDecimal(text)
  {
    PartsSpell(text);
    Value(10, DigitsOf(DECIMAL, WholeOf(text))) as real + FractionValue(DigitsOf(DECIMAL, FractionOf(text)))
  }

  // ----- scaled integers -----

  function PadEnd(text: string, width: nat): string {
    if |text| >= width then text else text + seq(width - |text|, _ => '0')
  }

  function PadStart(text: string, width: nat): string {
    if |text| >= width then text else seq(width - |text|, _ => '0') + text
  }

  /** The amount's digits read as one integer, once its fraction is padded to `scale` digits. */
  function Scaled(text: string, scale: nat): nat
    requires IsDecimal(text)
  {
    PartsSpell(text);
    Value(10, DigitsOf(DECIMAL, WholeOf(text) + PadEnd(FractionOf(text), scale)))
  }

  function CommonScale(a: string, b: string): nat {
    if |FractionOf(a)| >= |FractionOf(b)| then |FractionOf(a)| else |FractionOf(b)|
  }

  function Compare(a: Amount, b: Amount): int {
    var scale := CommonScale(a, b);
    var x, y := Scaled(a, scale), Scaled(b, scale);
    if x < y then -1 else if x > y then 1 else 0
  }

  function Min(a: Amount, b: Amount): Amount {
    if Compare(a, b) <= 0 then a else b
  }

  function SumText(a: string, b: string): string
    requires IsDecimal(a) && IsDecimal(b)
  {
    var scale := CommonScale(a, b);
    var sum := PadStart(NatText(Scaled(a, scale) + Scaled(b, scale)), scale + 1);
    assert |sum| > scale;
    if scale == 0 then sum else sum[..|sum| - scale] + "." + sum[|sum| - scale..]
  }

  function AddAmounts(a: Amount, b: Amount): Option<Amount> {
    ParseAmount(SumText(a, b))
  }

  // ----- scaling is exact -----

  lemma {:induction false} PowerAdds(m: nat, n: nat)
    ensures Power(m + n) == Power(m) * Power(n)
  {
    if n > 0 {
      PowerAdds(m, n - 1);
    }
  }

  lemma {:induction false} ValueAppend(a: seq<nat>, b: seq<nat>)
    ensures Value(10, a + b) == Value(10, a) * Power(|b|) + Value(10, b)
  {
    if b == [] {
      assert a + b == a;
    } else {
      var front, last := b[..|b| - 1], b[|b| - 1];
      assert (a + b)[..|a + b| - 1] == a + front;
      ValueAppend(a, front);
      Regroup(Value(10, a), Power(|front|), Value(10, front), last);
    }
  }

  lemma Regroup(a: nat, p: nat, f: nat, d: nat)
    ensures (a * p + f) * 10 + d == a * (p * 10) + (f * 10 + d)
  {
  }

  lemma {:induction false} FractionScales(digits: seq<nat>)
    ensures FractionValue(digits) * Power(|digits|) as real == Value(10, digits) as real
  {
    if digits != [] {
      var front, last := digits[..|digits| - 1], digits[|digits| - 1];
      FractionScales(front);
      FractionUnfolds(digits);
      assert Value(10, digits) == Value(10, front) * 10 + last;
      hide FractionValue, Value, Power;
      NextDigit(FractionValue(front), Power(|front|) as real, last as real);
    }
  }

  lemma FractionUnfolds(digits: seq<nat>)
    requires digits != []
    ensures
      var front, last := digits[..|digits| - 1], digits[|digits| - 1];
      && Power(|digits|) as real == Power(|front|) as real * 10.0
      && FractionValue(digits) == FractionValue(front) + last as real / (Power(|front|) as real * 10.0)
  {
  }

  lemma NextDigit(f: real, p: real, d: real)
    requires p > 0.0
    ensures (f + d / (p * 10.0)) * (p * 10.0) == f * p * 10.0 + d
  {
    var q := d / (p * 10.0);
    assert q * (p * 10.0) == d;
  }

  lemma PaddedScales(digits: seq<nat>, count: nat)
    ensures Value(10, digits + Zeros(count)) == Value(10, digits) * Power(count)
  {
    ValueAppend(digits, Zeros(count));
    ValueIgnoresLeadingZeros(10, count, []);
    assert Zeros(count) + [] == Zeros(count);
  }

  lemma DigitsOfAppend(a: string, b: string)
    requires Over(DECIMAL, a) && Over(DECIMAL, b)
    ensures Over(DECIMAL, a + b)
    ensures DigitsOf(DECIMAL, a + b) == DigitsOf(DECIMAL, a) + DigitsOf(DECIMAL, b)
  {
    hide DECIMAL, Over, DigitsOf;
    DigitsOfConcat(DECIMAL, a, b);
  }

  lemma DigitsOfZeros(count: nat)
    ensures Over(DECIMAL, seq(count, _ => '0'))
    ensures DigitsOf(DECIMAL, seq(count, _ => '0')) == Zeros(count)
  {
    assert DECIMAL[0] == '0';
  }

  lemma DigitsOfPadded(text: string, width: nat)
    requires Over(DECIMAL, text) && |text| <= width
    ensures Over(DECIMAL, PadEnd(text, width)) && |PadEnd(text, width)| == width
    ensures DigitsOf(DECIMAL, PadEnd(text, width)) == DigitsOf(DECIMAL, text) + Zeros(width - |text|)
  {
    DigitsOfZeros(width - |text|);
    DigitsOfAppend(text, seq(width - |text|, _ => '0'));
    assert text + seq(0, _ => '0') == text;
    if |text| == width {
      assert DigitsOf(DECIMAL, text) + Zeros(0) == DigitsOf(DECIMAL, text);
    }
  }

  lemma {:induction false} FractionIsNotNegative(digits: seq<nat>)
    ensures FractionValue(digits) >= 0.0
  {
    if digits != [] {
      FractionIsNotNegative(digits[..|digits| - 1]);
    }
  }

  lemma ValueIsNotNegative(text: string)
    requires IsDecimal(text)
    ensures ValueOf(text) >= 0.0
  {
    hide Value, DigitsOf, IsDecimal;
    ValueParts(text);
    FractionIsNotNegative(DigitsOf(DECIMAL, FractionOf(text)));
  }

  lemma ScaledParts(text: string, scale: nat)
    requires IsDecimal(text) && |FractionOf(text)| <= scale
    requires Over(DECIMAL, WholeOf(text)) && Over(DECIMAL, FractionOf(text))
    ensures
      var w, f := DigitsOf(DECIMAL, WholeOf(text)), DigitsOf(DECIMAL, FractionOf(text));
      Scaled(text, scale) == (Value(10, w) * Power(|f|) + Value(10, f)) * Power(scale - |f|)
  {
    hide Value, DigitsOf, Power, Over, IsDecimal, Split, PadEnd, Zeros;
    var whole, fraction := WholeOf(text), FractionOf(text);
    var w, f := DigitsOf(DECIMAL, whole), DigitsOf(DECIMAL, fraction);
    DigitsOfPadded(fraction, scale);
    DigitsOfAppend(whole, PadEnd(fraction, scale));
    assert w + (f + Zeros(scale - |f|)) == w + f + Zeros(scale - |f|);
    PaddedScales(w + f, scale - |f|);
    ValueAppend(w, f);
  }

  lemma ValueParts(text: string)
    requires IsDecimal(text)
    ensures Over(DECIMAL, WholeOf(text)) && Over(DECIMAL, FractionOf(text))
    ensures ValueOf(text) ==
      Value(10, DigitsOf(DECIMAL, WholeOf(text))) as real + FractionValue(DigitsOf(DECIMAL, FractionOf(text)))
  {
    PartsSpell(text);
    hide Value, Over, IsDecimal, Split, FractionValue, WholeOf, FractionOf, DigitsOf;
  }

  /** Scaling loses nothing: the scaled integer is the amount's value times ten to the scale. */
  lemma ScaledIsExact(text: string, scale: nat)
    requires IsDecimal(text) && |FractionOf(text)| <= scale
    ensures Scaled(text, scale) as real == ValueOf(text) * Power(scale) as real
  {
    hide Value, DigitsOf, Power, Over, IsDecimal, Split, FractionValue, Scaled, WholeOf, FractionOf, ValueOf;
    ValueParts(text);
    var w, f := DigitsOf(DECIMAL, WholeOf(text)), DigitsOf(DECIMAL, FractionOf(text));
    ScaledParts(text, scale);
    FractionScales(f);
    PowerAdds(|f|, scale - |f|);
    var units, tenths, low, high := Value(10, w), Value(10, f), Power(|f|), Power(scale - |f|);
    assert Scaled(text, scale) == (units * low + tenths) * high;
    InReals(units, tenths, low, high, FractionValue(f));
  }

  lemma InReals(w: nat, f: nat, p: nat, q: nat, fraction: real)
    requires fraction * p as real == f as real
    ensures ((w * p + f) * q) as real == (w as real + fraction) * (p * q) as real
  {
    var sum := w * p + f;
    assert (sum * q) as real == sum as real * q as real;
    assert sum as real == w as real * p as real + fraction * p as real;
    Distribute(w as real, fraction, p as real, q as real);
    assert (p * q) as real == p as real * q as real;
  }

  lemma Distribute(w: real, f: real, p: real, q: real)
    ensures (w * p + f * p) * q == (w + f) * (p * q)
  {
  }

  // ----- comparison and addition agree with rational arithmetic -----

  lemma ScaledOrder(u: real, v: real, p: real)
    requires p >= 1.0
    ensures u < v <==> u * p < v * p
    ensures u == v <==> u * p == v * p
  {
    if u < v {
      assert (v - u) * p > 0.0;
    } else if u > v {
      assert (u - v) * p > 0.0;
    }
  }

  /** Comparison is exact at any mix of scales. */
  lemma CompareIsExact(a: Amount, b: Amount)
    ensures Compare(a, b) < 0 <==> ValueOf(a) < ValueOf(b)
    ensures Compare(a, b) == 0 <==> ValueOf(a) == ValueOf(b)
    ensures Compare(a, b) > 0 <==> ValueOf(a) > ValueOf(b)
  {
    hide IsDecimal, Scaled, FractionOf, ValueOf, Power;
    var scale := CommonScale(a, b);
    ScaledIsExact(a, scale);
    ScaledIsExact(b, scale);
    var p := Power(scale) as real;
    ScaledOrder(ValueOf(a), ValueOf(b), p);
    ScaledOrder(ValueOf(b), ValueOf(a), p);
  }

  /** The smaller amount in the spelling it was given; the first of two equal ones. */
  lemma MinIsLeast(a: Amount, b: Amount)
    ensures Min(a, b) == if ValueOf(b) < ValueOf(a) then b else a
  {
    hide Compare, ValueOf, IsDecimal;
    CompareIsExact(a, b);
  }

  lemma {:induction false} SameWidth(a: seq<nat>, b: seq<nat>)
    requires IsNumeral(10, a) && IsNumeral(10, b) && |a| == |b| && Value(10, a) == Value(10, b)
    ensures a == b
  {
    if a != [] {
      var x, y := a[..|a| - 1], b[..|b| - 1];
      QuotientIsUnique(10, Value(10, x), a[|a| - 1]);
      QuotientIsUnique(10, Value(10, y), b[|b| - 1]);
      SameWidth(x, y);
      assert a == x + [a[|a| - 1]] && b == y + [b[|b| - 1]];
    }
  }

  /** No leading zero, unless zero itself is meant. */
  predicate Canonical(whole: string) {
    |whole| == 1 || (whole != "" && whole[0] != '0')
  }

  lemma ValueOfNatText(n: nat)
    ensures Over(DECIMAL, NatText(n)) && Value(10, DigitsOf(DECIMAL, NatText(n))) == n
    ensures Canonical(NatText(n))
  {
    DecimalIsDistinct();
    NatTextZero(n);
    if n == 0 {
      assert DigitsOf(DECIMAL, "0") == [0];
      assert Value(10, [0]) == 0;
    } else {
      SymbolsInvert(DECIMAL, Digits(10, n));
      ValueOfDigits(10, n);
    }
  }

  lemma PadStartKeepsValue(text: string, width: nat)
    requires Over(DECIMAL, text)
    ensures Over(DECIMAL, PadStart(text, width)) && |PadStart(text, width)| >= width
    ensures Value(10, DigitsOf(DECIMAL, PadStart(text, width))) == Value(10, DigitsOf(DECIMAL, text))
  {
    hide Value, DigitsOf, Over;
    if |text| < width {
      var count := width - |text|;
      DigitsOfZeros(count);
      DigitsOfAppend(seq(count, _ => '0'), text);
      ValueIgnoresLeadingZeros(10, count, DigitsOf(DECIMAL, text));
    }
  }

  /** Text of an amount with `scale` digits after the point and no needless zeros before it. */
  predicate PlainAt(text: string, scale: nat)
    requires IsDecimal(text)
  {
    Canonical(WholeOf(text)) && |FractionOf(text)| == scale
  }

  lemma PlacePoint(sum: string, scale: nat)
    requires Over(DECIMAL, sum) && |sum| > scale
    requires Canonical(sum) || |sum| == scale + 1
    ensures
      var text := if scale == 0 then sum else sum[..|sum| - scale] + "." + sum[|sum| - scale..];
      IsDecimal(text) && PlainAt(text, scale) && Scaled(text, scale) == Value(10, DigitsOf(DECIMAL, sum))
  {
    var whole, fraction := sum[..|sum| - scale], sum[|sum| - scale..];
    assert sum == whole + fraction;
    SpelledParts(whole, fraction);
    hide Split, Over, DigitsOf, Value, WholeOf, FractionOf, IsDecimal;
    assert scale == 0 ==> whole == sum;
  }

  lemma SumPlaced(a: string, b: string)
    requires IsDecimal(a) && IsDecimal(b)
    ensures IsDecimal(SumText(a, b)) && PlainAt(SumText(a, b), CommonScale(a, b))
    ensures Scaled(SumText(a, b), CommonScale(a, b)) == Scaled(a, CommonScale(a, b)) + Scaled(b, CommonScale(a, b))
  {
    hide IsDecimal, Scaled, CommonScale, PlainAt, NatText, Value, DigitsOf, Over, PadStart;
    var scale := CommonScale(a, b);
    var n := Scaled(a, scale) + Scaled(b, scale);
    var sum := PadStart(NatText(n), scale + 1);
    ValueOfNatText(n);
    PadStartKeepsValue(NatText(n), scale + 1);
    PadStartIsCanonical(NatText(n), scale + 1);
    PlacePoint(sum, scale);
  }

  lemma PadStartIsCanonical(text: string, width: nat)
    requires Canonical(text)
    ensures Canonical(PadStart(text, width)) || |PadStart(text, width)| == width
  {
  }

  lemma ExactSum(u: real, v: real, w: real, x: nat, y: nat, p: nat)
    requires p >= 1 && x as real == u * p as real && y as real == v * p as real && (x + y) as real == w * p as real
    ensures w == u + v
  {
    assert (u + v) * p as real == u * p as real + v * p as real;
    ScaledOrder(w, u + v, p as real);
  }

  lemma ScaledSum(a: string, b: string, sum: string, scale: nat)
    requires IsDecimal(a) && IsDecimal(b) && IsDecimal(sum)
    requires |FractionOf(a)| <= scale && |FractionOf(b)| <= scale && |FractionOf(sum)| <= scale
    requires Scaled(sum, scale) == Scaled(a, scale) + Scaled(b, scale)
    ensures ValueOf(sum) == ValueOf(a) + ValueOf(b)
  {
    hide IsDecimal, Scaled, FractionOf, ValueOf, Power;
    ScaledIsExact(a, scale);
    ScaledIsExact(b, scale);
    ScaledIsExact(sum, scale);
    ExactSum(ValueOf(a), ValueOf(b), ValueOf(sum), Scaled(a, scale), Scaled(b, scale), Power(scale));
  }

  /** Addition is exact, and its text has the wider of the two scales. */
  lemma SumIsExact(a: string, b: string)
    requires IsDecimal(a) && IsDecimal(b)
    ensures IsDecimal(SumText(a, b)) && ValueOf(SumText(a, b)) == ValueOf(a) + ValueOf(b)
    ensures PlainAt(SumText(a, b), CommonScale(a, b))
  {
    hide IsDecimal, Scaled, FractionOf, Canonical, ValueOf, SumText;
    SumPlaced(a, b);
    ScaledSum(a, b, SumText(a, b), CommonScale(a, b));
  }

  lemma PlainParts(text: string, scale: nat)
    requires IsDecimal(text) && PlainAt(text, scale)
    requires AllDigits(WholeOf(text)) && Over(DECIMAL, FractionOf(text))
    ensures
      var w, f := Value(10, DigitsOf(DECIMAL, WholeOf(text))), Value(10, DigitsOf(DECIMAL, FractionOf(text)));
      Scaled(text, scale) == w * Power(scale) + f
  {
    hide IsDecimal, WholeOf, FractionOf, DigitsOf, Value, Over, Scaled;
    ScaledParts(text, scale);
  }

  lemma {:induction false} ValueBelowPower(digits: seq<nat>)
    requires IsNumeral(10, digits)
    ensures Value(10, digits) < Power(|digits|)
  {
    if digits != [] {
      ValueBelowPower(digits[..|digits| - 1]);
    }
  }

  lemma CanonicalWhole(a: string, b: string)
    requires AllDigits(a) && AllDigits(b) && Canonical(a) && Canonical(b)
    requires Value(10, DigitsOf(DECIMAL, a)) == Value(10, DigitsOf(DECIMAL, b))
    ensures a == b
  {
    CanonicalText(a);
    CanonicalText(b);
  }

  lemma CanonicalText(a: string)
    requires AllDigits(a) && Canonical(a)
    ensures a == NatText(Value(10, DigitsOf(DECIMAL, a)))
  {
    DecimalIsDistinct();
    var digits := DigitsOf(DECIMAL, a);
    assert DECIMAL[0] == '0';
    DigitsInvert(DECIMAL, a);
    if digits[0] != 0 {
      DigitsOfValue(10, digits);
    } else {
      assert a[0] == '0';
      assert digits == [0];
    }
  }

  lemma PlainNumbers(a: string, b: string, scale: nat)
    requires IsDecimal(a) && IsDecimal(b) && PlainAt(a, scale) && PlainAt(b, scale)
    requires AllDigits(WholeOf(a)) && Over(DECIMAL, FractionOf(a)) && AllDigits(WholeOf(b)) &&
      Over(DECIMAL, FractionOf(b))
    requires Scaled(a, scale) == Scaled(b, scale)
    ensures Value(10, DigitsOf(DECIMAL, WholeOf(a))) == Value(10, DigitsOf(DECIMAL, WholeOf(b)))
    ensures Value(10, DigitsOf(DECIMAL, FractionOf(a))) == Value(10, DigitsOf(DECIMAL, FractionOf(b)))
  {
    hide IsDecimal, WholeOf, FractionOf, DigitsOf, Value, Over, Scaled, Power, Canonical;
    PlainParts(a, scale);
    PlainParts(b, scale);
    var w, f := DigitsOf(DECIMAL, WholeOf(a)), DigitsOf(DECIMAL, FractionOf(a));
    var x, g := DigitsOf(DECIMAL, WholeOf(b)), DigitsOf(DECIMAL, FractionOf(b));
    ValueBelowPower(f);
    ValueBelowPower(g);
    SplitIsUnique(Value(10, w), Value(10, f), Value(10, x), Value(10, g), Power(scale));
  }

  lemma SameValueSameScaled(a: string, b: string, scale: nat)
    requires IsDecimal(a) && IsDecimal(b) && |FractionOf(a)| <= scale && |FractionOf(b)| <= scale
    requires ValueOf(a) == ValueOf(b)
    ensures Scaled(a, scale) == Scaled(b, scale)
  {
    hide IsDecimal, FractionOf, Scaled, Power, ValueOf;
    ScaledIsExact(a, scale);
    ScaledIsExact(b, scale);
  }

  lemma FractionTextsAgree(a: string, b: string)
    requires Over(DECIMAL, a) && Over(DECIMAL, b) && |a| == |b|
    requires Value(10, DigitsOf(DECIMAL, a)) == Value(10, DigitsOf(DECIMAL, b))
    ensures a == b
  {
    hide DigitsOf, Value, Over, Symbols;
    DecimalIsDistinct();
    SameWidth(DigitsOf(DECIMAL, a), DigitsOf(DECIMAL, b));
    DigitsInvert(DECIMAL, a);
    DigitsInvert(DECIMAL, b);
  }

  /** A plain text is determined by its value: there is one way to write a number at a given scale. */
  lemma PlainTextIsUnique(a: string, b: string, scale: nat)
    requires IsDecimal(a) && IsDecimal(b) && PlainAt(a, scale) && PlainAt(b, scale)
    requires ValueOf(a) == ValueOf(b)
    ensures a == b
  {
    hide IsDecimal, WholeOf, FractionOf, DigitsOf, Value, Over, Scaled, Power, ValueOf, Canonical;
    PartsSpell(a);
    PartsSpell(b);
    SameValueSameScaled(a, b, scale);
    PlainNumbers(a, b, scale);
    FractionTextsAgree(FractionOf(a), FractionOf(b));
    CanonicalWhole(WholeOf(a), WholeOf(b));
  }

  lemma SplitIsUnique(w: nat, f: nat, x: nat, g: nat, p: nat)
    requires f < p && g < p && w * p + f == x * p + g
    ensures w == x && f == g
  {
    if p == 1 {
    } else {
      QuotientIsUnique(p, w, f);
      QuotientIsUnique(p, x, g);
    }
  }

  /** The sum's text is the one plain way to write the exact sum at the wider scale; adding fails exactly when that
      text is too long for an amount. */
  lemma AddIsExact(a: Amount, b: Amount, text: string)
    requires IsDecimal(text) && PlainAt(text, CommonScale(a, b)) && ValueOf(text) == ValueOf(a) + ValueOf(b)
    ensures AddAmounts(a, b) == if |text| <= 40 then Some(text) else None
  {
    hide IsDecimal, PlainAt, ValueOf, SumText;
    SumIsExact(a, b);
    PlainTextIsUnique(text, SumText(a, b), CommonScale(a, b));
  }
}
