/** Positional notation, most significant digit first, and the change of base that keeps leading zeros. */
module Positional {

  ghost predicate IsNumeral(base: nat, digits: seq<nat>) {
    forall i | 0 <= i < |digits| :: digits[i] < base
  }

  /** The number a digit sequence denotes. */
  function Value(base: nat, digits: seq<nat>): nat {
    if digits == [] then 0
    else Value(base, digits[..|digits| - 1]) * base + digits[|digits| - 1]
  }

  lemma Quotient(base: nat, n: nat)
    requires base >= 2
    ensures n == n / base * base + n % base
    ensures n > 0 ==> n / base < n
  {
    var q := n / base;
    if q > 0 {
      assert q * base >= q * 2;
    }
  }

  lemma QuotientIsUnique(base: nat, q: int, r: nat)
    requires base >= 2 && r < base
    ensures (q * base + r) / base == q && (q * base + r) % base == r
  {
    var n := q * base + r;
    var q', r' := n / base, n % base;
    assert n == q' * base + r';
    assert (q' - q) * base == r - r';
    if q' > q {
      MultipleIsLarge(base, q' - q);
    } else if q' < q {
      MultipleIsLarge(base, q - q');
    }
  }

  lemma MultipleIsLarge(base: nat, k: nat)
    requires k >= 1
    ensures k * base >= base
  {
  }

  /** The shortest digit sequence denoting n; zero is the empty sequence. */
  function Digits(base: nat, n: nat): (digits: seq<nat>)
    requires base >= 2
    ensures IsNumeral(base, digits)
    ensures digits == [] <==> n == 0
    ensures digits != [] ==> digits[0] != 0
    decreases n
  {
    if n == 0 then []
    else
      Quotient(base, n);
      Digits(base, n / base) + [n % base]
  }

  lemma {:induction false} ValueOfDigits(base: nat, n: nat)
    requires base >= 2
    ensures Value(base, Digits(base, n)) == n
    decreases n
  {
    if n > 0 {
      Quotient(base, n);
      ValueOfDigits(base, n / base);
      assert Digits(base, n)[..|Digits(base, n)| - 1] == Digits(base, n / base);
    }
  }

  lemma DigitsNext(base: nat, q: nat, r: nat)
    requires base >= 2 && r < base && (q > 0 || r > 0)
    ensures Digits(base, q * base + r) == Digits(base, q) + [r]
  {
    QuotientIsUnique(base, q, r);
    if q > 0 {
      MultipleIsLarge(base, q);
    }
  }

  lemma {:induction false} DigitsOfValue(base: nat, digits: seq<nat>)
    requires base >= 2 && IsNumeral(base, digits)
    requires digits != [] ==> digits[0] != 0
    ensures Digits(base, Value(base, digits)) == digits
  {
    hide Digits;
    if digits != [] {
      var front, last := digits[..|digits| - 1], digits[|digits| - 1];
      DigitsOfValue(base, front);
      assert Value(base, front) > 0 || front == [];
      DigitsNext(base, Value(base, front), last);
      assert digits == front + [last];
    }
  }

  function Zeros(count: nat): (zeros: seq<nat>)
    ensures |zeros| == count && forall i | 0 <= i < count :: zeros[i] == 0
  {
    seq(count, _ => 0)
  }

  function LeadingZeros(digits: seq<nat>): (count: nat)
    ensures count <= |digits|
    ensures forall i | 0 <= i < count :: digits[i] == 0
    ensures count < |digits| ==> digits[count] != 0
  {
    if digits == [] || digits[0] != 0 then 0 else 1 + LeadingZeros(digits[1..])
  }

  lemma {:induction false} LeadingZerosAre(digits: seq<nat>, count: nat)
    requires count <= |digits|
    requires forall i | 0 <= i < count :: digits[i] == 0
    requires count < |digits| ==> digits[count] != 0
    ensures LeadingZeros(digits) == count
  {
    if count > 0 {
      LeadingZerosAre(digits[1..], count - 1);
    }
  }

  lemma {:induction false} ValueIgnoresLeadingZeros(base: nat, count: nat, digits: seq<nat>)
    ensures Value(base, Zeros(count) + digits) == Value(base, digits)
    decreases count + |digits|
  {
    var all := Zeros(count) + digits;
    if digits != [] {
      assert all[..|all| - 1] == Zeros(count) + digits[..|digits| - 1];
      ValueIgnoresLeadingZeros(base, count, digits[..|digits| - 1]);
    } else if count > 0 {
      assert all[..|all| - 1] == Zeros(count - 1) + digits;
      ValueIgnoresLeadingZeros(base, count - 1, digits);
    }
  }

  /** Re-expresses a numeral in another base, keeping one leading zero for each leading zero. */
  function Convert(from: nat, to: nat, digits: seq<nat>): (converted: seq<nat>)
    requires to >= 2
    ensures IsNumeral(to, converted)
  {
    Zeros(LeadingZeros(digits)) + Digits(to, Value(from, digits))
  }

  /** Changing base and back is the identity on every numeral, leading zeros included. */
  lemma ConvertBack(from: nat, to: nat, digits: seq<nat>)
    requires from >= 2 && to >= 2 && IsNumeral(from, digits)
    ensures Convert(to, from, Convert(from, to, digits)) == digits
  {
    var count := LeadingZeros(digits);
    var significant := digits[count..];
    assert digits == Zeros(count) + significant;
    ValueIgnoresLeadingZeros(from, count, significant);
    var n := Value(from, digits);
    DigitsOfValue(from, significant);
    var converted := Convert(from, to, digits);
    assert converted == Zeros(count) + Digits(to, n);
    LeadingZerosAre(converted, count);
    ValueIgnoresLeadingZeros(to, count, Digits(to, n));
    ValueOfDigits(to, n);
  }
}
