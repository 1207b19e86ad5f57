/** Base64 with padding, section 4 of RFC 4648, and the single accepted spelling of a signature. */
module Base64 {
  import opened Wrappers
  import opened Positional
  import opened Alphabets

  const B64: string :=
    "ABCDEFGHIJKLMNOPQRSTUVWXYZ" + "abcdefghijklmnopqrstuvwxyz" + "0123456789" + "+/"

  lemma SymbolAt(i: nat)
    requires i < 64
    ensures |B64| == 64
    ensures B64[i] as int ==
      if i < 26 then 'A' as int + i
      else if i < 52 then 'a' as int - 26 + i
      else if i < 62 then '0' as int - 52 + i
      else if i == 62 then '+' as int
      else '/' as int
  {
    assert forall k | 0 <= k < 26 :: "ABCDEFGHIJKLMNOPQRSTUVWXYZ"[k] as int == 'A' as int + k;
    assert forall k | 0 <= k < 26 :: "abcdefghijklmnopqrstuvwxyz"[k] as int == 'a' as int + k;
    assert forall k | 0 <= k < 10 :: "0123456789"[k] as int == '0' as int + k;
  }

  /** The alphabet has 64 distinct symbols, and the padding sign is not one of them. */
  lemma AlphabetIsDistinct()
    ensures IsAlphabet(B64)
  {
    SymbolAt(0);
    forall i, j | 0 <= i < j < 64
      ensures B64[i] != B64[j]
    {
      SymbolAt(i);
      SymbolAt(j);
    }
    forall i | 0 <= i < 64
      ensures B64[i] != '='
    {
      SymbolAt(i);
    }
  }

  ghost predicate IsAlphabet(alphabet: string) {
    |alphabet| == 64 && Distinct(alphabet) && '=' !in alphabet
  }

  /** The sextets that carry one to three bytes, filled up with zero bits. Each `>>`, `&` and `|` of the
      source acts on disjoint bits, so it is a quotient, remainder or sum here. */
  function GroupOf(bytes: Bytes): (sextets: seq<nat>)
    requires 1 <= |bytes| <= 3
    ensures |sextets| == |bytes| + 1 && IsNumeral(64, sextets)
  {
    if |bytes| == 1 then [bytes[0] / 4, bytes[0] % 4 * 16]
    else if |bytes| == 2 then [bytes[0] / 4, bytes[0] % 4 * 16 + bytes[1] / 16, bytes[1] % 16 * 4]
    else [bytes[0] / 4, bytes[0] % 4 * 16 + bytes[1] / 16, bytes[1] % 16 * 4 + bytes[2] / 64, bytes[2] % 64]
  }

  function Padding(size: nat): string
    requires 1 <= size <= 3
  {
    if size == 1 then "==" else if size == 2 then "=" else ""
  }

  /** Groups of up to three bytes, each as four characters. */
  function EncodeOver(alphabet: string, bytes: Bytes): string
    requires |alphabet| == 64
  {
    if bytes == [] then ""
    else if |bytes| <= 3 then Symbols(alphabet, GroupOf(bytes)) + Padding(|bytes|)
    else Symbols(alphabet, GroupOf(bytes[..3])) + EncodeOver(alphabet, bytes[3..])
  }

  /** The four characters the loop body of the encoder appends. */
  method EncodeGroup(alphabet: string, bytes: Bytes, i: nat) returns (group: string)
    requires |alphabet| == 64 && i < |bytes|
    ensures
      var last := if i + 3 <= |bytes| then bytes[i..i + 3] else bytes[i..];
      group == Symbols(alphabet, GroupOf(last)) + Padding(|last|)
  {
    var a := bytes[i];
    var b := if i + 1 < |bytes| then bytes[i + 1] else 0;
    var c := if i + 2 < |bytes| then bytes[i + 2] else 0;
    group := [alphabet[a / 4], alphabet[a % 4 * 16 + b / 16]];
    group := group + [if i + 1 < |bytes| then alphabet[b % 16 * 4 + c / 64] else '='];
    group := group + [if i + 2 < |bytes| then alphabet[c % 64] else '='];
  }

  method EncodeLoop(alphabet: string, bytes: Bytes) returns (out: string)
    requires |alphabet| == 64
    ensures out == EncodeOver(alphabet, bytes)
  {
    hide GroupOf, Symbols;
    out := "";
    var i := 0;
    while i < |bytes|
      invariant i <= |bytes| ==> out + EncodeOver(alphabet, bytes[i..]) == EncodeOver(alphabet, bytes)
      invariant i > |bytes| ==> out == EncodeOver(alphabet, bytes)
    {
      var group := EncodeGroup(alphabet, bytes, i);
      if i + 3 <= |bytes| {
        EncodeFirst(alphabet, bytes[i..]);
        assert bytes[i..][..3] == bytes[i..i + 3] && bytes[i..][3..] == bytes[i + 3..];
      }
      out := out + group;
      i := i + 3;
    }
  }

  lemma EncodeFirst(alphabet: string, bytes: Bytes)
    requires |alphabet| == 64 && |bytes| >= 3
    ensures EncodeOver(alphabet, bytes) ==
      Symbols(alphabet, GroupOf(bytes[..3])) + EncodeOver(alphabet, bytes[3..])
  {
    if |bytes| == 3 {
      assert bytes[..3] == bytes;
    }
  }

  /** Groups of four symbols, the last of which may end in one or two padding signs. */
  predicate Matches(alphabet: string, text: string) {
    if |text| < 4 then text == ""
    else
      || (Over(alphabet, text[..4]) && Matches(alphabet, text[4..]))
      || (|text| == 4 && text[2..] == "==" && Over(alphabet, text[..2]))
      || (|text| == 4 && text[3..] == "=" && Over(alphabet, text[..3]))
  }

  function Clean(text: string): (clean: string)
    ensures clean <= text
    ensures clean != "" ==> clean[|clean| - 1] != '='
    ensures forall i | |clean| <= i < |text| :: text[i] == '='
  {
    if text == "" || text[|text| - 1] != '=' then text else Clean(text[..|text| - 1])
  }

  ghost predicate IsPadded(alphabet: string, text: string, size: nat) {
    && size <= |text| <= size + 2
    && Over(alphabet, text[..size])
    && forall i | size <= i < |text| :: text[i] == '='
  }

  lemma {:induction false} MatchesIsPadded(alphabet: string, text: string) returns (size: nat)
    requires Matches(alphabet, text)
    ensures IsPadded(alphabet, text, size)
  {
    if |text| < 4 {
      size := 0;
    } else if |text| == 4 && text[2..] == "==" && Over(alphabet, text[..2]) {
      size := 2;
      assert text[2] == text[2..][0] && text[3] == text[2..][1];
    } else if |text| == 4 && text[3..] == "=" && Over(alphabet, text[..3]) {
      size := 3;
      assert text[3] == text[3..][0];
    } else {
      var rest := MatchesIsPadded(alphabet, text[4..]);
      size := 4 + rest;
      Sliced(text, 4, rest);
      forall i | size <= i < |text|
        ensures text[i] == '='
      {
        assert text[i] == text[4..][i - 4];
      }
    }
  }

  lemma {:induction false} CleanIsPadded(alphabet: string, text: string, size: nat)
    requires '=' !in alphabet && IsPadded(alphabet, text, size)
    ensures Clean(text) == text[..size]
  {
    if |text| > size {
      assert text[..|text| - 1][..size] == text[..size];
      CleanIsPadded(alphabet, text[..|text| - 1], size);
    } else if size > 0 {
      assert text[size - 1] in text[..size];
    }
  }

  /** The byte completed by sextet v after sextet u when `bits` bits of v are left over. */
  function Completed(bits: nat, u: nat, v: nat): Byte
    requires u < 64 && v < 64
  {
    if bits == 4 then u * 4 + v / 16
    else if bits == 2 then u % 16 * 16 + v / 4
    else u % 4 * 64 + v
  }

  /** The bytes completed while reading sextets, with `bits` bits of the previous sextet u left over. */
  function Drain(bits: nat, u: nat, sextets: seq<nat>): (bytes: Bytes)
    requires u < 64 && IsNumeral(64, sextets)
    decreases |sextets|
  {
    if sextets == [] then []
    else if bits + 6 < 8 then Drain(bits + 6, sextets[0], sextets[1..])
    else [Completed(bits - 2, u, sextets[0])] + Drain(bits - 2, sextets[0], sextets[1..])
  }

  function Unpack(sextets: seq<nat>): Bytes
    requires IsNumeral(64, sextets)
  {
    Drain(0, 0, sextets)
  }

  lemma CleanIsOver(alphabet: string, text: string)
    requires '=' !in alphabet && Matches(alphabet, text)
    ensures Over(alphabet, Clean(text))
  {
    var size := MatchesIsPadded(alphabet, text);
    CleanIsPadded(alphabet, text, size);
  }

  function DecodeOver(alphabet: string, text: string): Option<Bytes>
    requires IsAlphabet(alphabet)
  {
    if Matches(alphabet, text) then
      CleanIsOver(alphabet, text);
      Some(Unpack(DigitsOf(alphabet, Clean(text))))
    else None
  }

  lemma DrainEnd(bits: nat, u: nat)
    requires u < 64
    ensures Drain(bits, u, []) == []
  {
  }

  lemma DrainNext(bits: nat, u: nat, sextets: seq<nat>, i: nat)
    requires u < 64 && IsNumeral(64, sextets) && i < |sextets|
    ensures Drain(bits, u, sextets[i..]) ==
      if bits + 6 < 8 then Drain(bits + 6, sextets[i], sextets[i + 1..])
      else [Completed(bits - 2, u, sextets[i])] + Drain(bits - 2, sextets[i], sextets[i + 1..])
  {
    assert sextets[i..][1..] == sextets[i + 1..];
  }

  lemma {:induction false} DrainLength(bits: nat, u: nat, sextets: seq<nat>)
    requires u < 64 && IsNumeral(64, sextets) && bits < 8
    ensures 8 * |Drain(bits, u, sextets)| <= bits + 6 * |sextets| < 8 * |Drain(bits, u, sextets)| + 8
    decreases |sextets|
  {
    if sextets != [] {
      DrainLength(if bits + 6 < 8 then bits + 6 else bits - 2, sextets[0], sextets[1..]);
    }
  }

  /** r is what a signed 32-bit register holds after being assigned x. */
  ghost predicate Wraps(r: int, x: int) {
    && -0x8000_0000 <= r < 0x8000_0000
    && exists turns: int :: r == x - turns * 0x1_0000_0000
  }

  method AssignInt32(x: int) returns (r: int)
    ensures Wraps(r, x)
  {
    var turns := (x + 0x8000_0000) / 0x1_0000_0000;
    r := x - turns * 0x1_0000_0000;
  }

  lemma WrapsItself(x: int)
    requires -0x8000_0000 <= x < 0x8000_0000
    ensures Wraps(x, x)
  {
    assert x == x - 0 * 0x1_0000_0000;
  }

  /** Shifting a wrapped register leaves it congruent to the unbounded accumulator. */
  lemma WrapsShift(acc: int, x: int, v: nat, shifted: int)
    requires Wraps(acc, x) && Wraps(shifted, acc * 64 + v)
    ensures Wraps(shifted, x * 64 + v)
  {
    var before: int :| acc == x - before * 0x1_0000_0000;
    var after: int :| shifted == acc * 64 + v - after * 0x1_0000_0000;
    var turns := before * 64 + after;
    assert shifted == x * 64 + v - turns * 0x1_0000_0000;
  }

  lemma WrapsLowBits(acc: int, x: int)
    requires Wraps(acc, x)
    ensures acc % 256 == x % 256 && acc / 4 % 256 == x / 4 % 256 && acc / 16 % 256 == x / 16 % 256
  {
    var turns: int :| acc == x - turns * 0x1_0000_0000;
    QuotientIsUnique(256, acc / 256 + turns * 0x100_0000, acc % 256);
    QuotientIsUnique(4, acc / 4 + turns * 0x4000_0000, acc % 4);
    QuotientIsUnique(256, acc / 4 / 256 + turns * 0x40_0000, acc / 4 % 256);
    QuotientIsUnique(16, acc / 16 + turns * 0x1000_0000, acc % 16);
    QuotientIsUnique(256, acc / 16 / 256 + turns * 0x10_0000, acc / 16 % 256);
  }

  /** Shifting the unbounded accumulator by the bits left over exposes exactly the completed byte. */
  lemma AccumulatorEmits(x: nat, u: nat, v: nat, bits: nat)
    requires u < 64 && v < 64 && (bits == 0 || bits == 2 || bits == 4)
    ensures
      var accumulated := (x * 64 + u) * 64 + v;
      Completed(bits, u, v) ==
      (if bits == 4 then accumulated / 16 else if bits == 2 then accumulated / 4 else accumulated) % 256
  {
    if bits == 4 {
      QuotientIsUnique(16, x * 256 + (u * 4 + v / 16), v % 16);
      QuotientIsUnique(256, x, u * 4 + v / 16);
    } else if bits == 2 {
      QuotientIsUnique(4, (x * 4 + u / 16) * 256 + (u % 16 * 16 + v / 4), v % 4);
      QuotientIsUnique(256, x * 4 + u / 16, u % 16 * 16 + v / 4);
    } else {
      QuotientIsUnique(256, x * 16 + u / 4, u % 4 * 64 + v);
    }
  }

  /** `(acc >> bits) & 0xff`. */
  method Emit(acc: int, bits: nat, ghost high: nat, ghost last: nat, ghost v: nat) returns (byte: Byte)
    requires last < 64 && v < 64 && (bits == 0 || bits == 2 || bits == 4)
    requires Wraps(acc, (high * 64 + last) * 64 + v)
    ensures byte == Completed(bits, last, v)
  {
    WrapsLowBits(acc, (high * 64 + last) * 64 + v);
    AccumulatorEmits(high, last, v, bits);
    byte := (if bits == 4 then acc / 16 else if bits == 2 then acc / 4 else acc) % 256;
  }

  /** The shift-and-mask loop, with its never-masked 32-bit accumulator; it fills its output exactly. */
  method DecodeLoop(alphabet: string, clean: string) returns (data: Bytes)
    requires |alphabet| == 64 && Over(alphabet, clean)
    ensures data == Unpack(DigitsOf(alphabet, clean))
  {
    hide Completed, Wraps, Drain, Over, IndexOf;
    ghost var sextets := DigitsOf(alphabet, clean);
    DrainLength(0, 0, sextets);
    var out := new Byte[|clean| * 3 / 4];
    var bits, acc, idx := 0, 0, 0;
    ghost var high: nat, last: nat, emitted: Bytes := 0, 0, [];
    WrapsItself(acc);
    for i := 0 to |clean|
      invariant (bits == 0 || bits == 2 || bits == 4 || bits == 6) && last < 64
      invariant Wraps(acc, high * 64 + last)
      invariant emitted + Drain(bits, last, sextets[i..]) == Unpack(sextets)
      invariant idx == |emitted| <= out.Length && out[..idx] == emitted
    {
      ghost var v := sextets[i];
      DrainNext(bits, last, sextets, i);
      var shifted := AssignInt32(acc * 64 + IndexOf(alphabet, clean[i]));
      WrapsShift(acc, high * 64 + last, v, shifted);
      acc := shifted;
      bits := bits + 6;
      if bits >= 8 {
        bits := bits - 8;
        var byte := Emit(acc, bits, high, last, v);
        Reassociate(emitted, byte, Drain(bits, v, sextets[i + 1..]));
        emitted := emitted + [byte];
        out[idx] := byte;
        idx := idx + 1;
      }
      high, last := high * 64 + last, v;
    }
    assert sextets[|clean|..] == [];
    DrainEnd(bits, last);
    assert idx == out.Length;
    return out[..];
  }

  lemma Reassociate(front: Bytes, byte: Byte, back: Bytes)
    ensures front + ([byte] + back) == (front + [byte]) + back
  {
  }

  function Sextets(bytes: Bytes): (sextets: seq<nat>)
    ensures IsNumeral(64, sextets)
  {
    if bytes == [] then []
    else if |bytes| <= 3 then GroupOf(bytes)
    else GroupOf(bytes[..3]) + Sextets(bytes[3..])
  }

  /** An encoding is its sextets' symbols followed by at most two padding signs. */
  lemma {:induction false} EncodeShape(alphabet: string, bytes: Bytes)
    requires IsAlphabet(alphabet)
    ensures Matches(alphabet, EncodeOver(alphabet, bytes))
    ensures IsPadded(alphabet, EncodeOver(alphabet, bytes), |Sextets(bytes)|)
    ensures EncodeOver(alphabet, bytes)[..|Sextets(bytes)|] == Symbols(alphabet, Sextets(bytes))
  {
    if 0 < |bytes| <= 3 {
      LastGroupShape(alphabet, bytes);
    } else if |bytes| > 3 {
      EncodeShape(alphabet, bytes[3..]);
      FullGroupShape(alphabet, GroupOf(bytes[..3]), EncodeOver(alphabet, bytes[3..]), Sextets(bytes[3..]));
    }
  }

  lemma FullGroupShape(alphabet: string, group: seq<nat>, text: string, sextets: seq<nat>)
    requires IsAlphabet(alphabet) && |group| == 4 && IsNumeral(64, group) && IsNumeral(64, sextets)
    requires Matches(alphabet, text) && IsPadded(alphabet, text, |sextets|)
    requires text[..|sextets|] == Symbols(alphabet, sextets)
    ensures IsNumeral(64, group + sextets)
    ensures Matches(alphabet, Symbols(alphabet, group) + text)
    ensures IsPadded(alphabet, Symbols(alphabet, group) + text, |group + sextets|)
    ensures (Symbols(alphabet, group) + text)[..|group + sextets|] == Symbols(alphabet, group + sextets)
  {
    var all := Symbols(alphabet, group) + text;
    SymbolsInvert(alphabet, group);
    assert all[..4] == Symbols(alphabet, group) && all[4..] == text;
    Sliced(all, 4, |sextets|);
    assert Symbols(alphabet, group + sextets) == Symbols(alphabet, group) + Symbols(alphabet, sextets);
  }

  lemma LastGroupShape(alphabet: string, bytes: Bytes)
    requires IsAlphabet(alphabet) && 0 < |bytes| <= 3
    ensures Matches(alphabet, EncodeOver(alphabet, bytes))
    ensures IsPadded(alphabet, EncodeOver(alphabet, bytes), |bytes| + 1)
    ensures EncodeOver(alphabet, bytes)[..|bytes| + 1] == Symbols(alphabet, GroupOf(bytes))
  {
    hide Distinct;
    var text := EncodeOver(alphabet, bytes);
    SymbolsInvert(alphabet, GroupOf(bytes));
    assert text[..|bytes| + 1] == Symbols(alphabet, GroupOf(bytes));
    assert text[|bytes| + 1..] == Padding(|bytes|);
    assert |bytes| == 3 ==> Matches(alphabet, text[4..]);
  }

  /** The bytes carried by a last group of two to four sextets. */
  function Ungroup(group: seq<nat>): (bytes: Bytes)
    requires 2 <= |group| <= 4 && IsNumeral(64, group)
    ensures |bytes| == |group| - 1
  {
    [Completed(4, group[0], group[1])] +
    (if |group| > 2 then [Completed(2, group[1], group[2])] else []) +
    (if |group| > 3 then [Completed(0, group[2], group[3])] else [])
  }

  lemma DrainGroup(u: nat, group: seq<nat>, rest: seq<nat>)
    requires u < 64 && 2 <= |group| <= 4 && IsNumeral(64, group) && IsNumeral(64, rest)
    requires |group| < 4 ==> rest == []
    ensures IsNumeral(64, group + rest)
    ensures Drain(0, u, group + rest) == Ungroup(group) + Unpack(rest)
  {
    var all := group + rest;
    assert Drain(0, u, all) == Drain(6, all[0], all[1..]);
    assert Drain(6, all[0], all[1..]) == [Completed(4, all[0], all[1])] + Drain(4, all[1], all[2..]) by {
      assert all[1..][1..] == all[2..];
    }
    if |group| > 2 {
      assert Drain(4, all[1], all[2..]) == [Completed(2, all[1], all[2])] + Drain(2, all[2], all[3..]) by {
        assert all[2..][1..] == all[3..];
      }
      if |group| > 3 {
        assert Drain(2, all[2], all[3..]) == [Completed(0, all[2], all[3])] + Drain(0, all[3], rest) by {
          assert all[3..][1..] == rest;
        }
        DrainForgets(all[3], rest);
      }
    }
  }

  /** With no bits left over the previous sextet does not matter. */
  lemma DrainForgets(u: nat, sextets: seq<nat>)
    requires u < 64 && IsNumeral(64, sextets)
    ensures Drain(0, u, sextets) == Unpack(sextets)
  {
  }

  lemma GroupRoundTrip(bytes: Bytes)
    requires 1 <= |bytes| <= 3
    ensures Ungroup(GroupOf(bytes)) == bytes
  {
    var group := GroupOf(bytes);
    assert Completed(4, group[0], group[1]) == bytes[0];
    assert |bytes| > 1 ==> Completed(2, group[1], group[2]) == bytes[1];
    assert |bytes| > 2 ==> Completed(0, group[2], group[3]) == bytes[2];
  }

  lemma {:induction false} UnpackInvertsSextets(bytes: Bytes)
    ensures Unpack(Sextets(bytes)) == bytes
  {
    if 0 < |bytes| <= 3 {
      DrainGroup(0, GroupOf(bytes), []);
      GroupRoundTrip(bytes);
      assert GroupOf(bytes) + [] == GroupOf(bytes);
    } else if |bytes| > 3 {
      DrainGroup(0, GroupOf(bytes[..3]), Sextets(bytes[3..]));
      GroupRoundTrip(bytes[..3]);
      UnpackInvertsSextets(bytes[3..]);
    }
  }

  lemma RoundTripOver(alphabet: string, bytes: Bytes)
    requires IsAlphabet(alphabet)
    ensures DecodeOver(alphabet, EncodeOver(alphabet, bytes)) == Some(bytes)
  {
    EncodeShape(alphabet, bytes);
    CleanIsPadded(alphabet, EncodeOver(alphabet, bytes), |Sextets(bytes)|);
    SymbolsInvert(alphabet, Sextets(bytes));
    UnpackInvertsSextets(bytes);
  }

  /** The bits of the last sextet that no byte of the output carries. */
  function UnusedBits(sextets: seq<nat>): nat {
    if |sextets| > 4 then UnusedBits(sextets[4..])
    else if |sextets| == 2 then sextets[1] % 16
    else if |sextets| == 3 then sextets[2] % 4
    else 0
  }

  lemma SextetRoundTrip(u: nat, v: nat, w: nat, x: nat)
    requires u < 64 && v < 64 && w < 64 && x < 64
    ensures GroupOf([Completed(4, u, v)]) == [u, v - v % 16]
    ensures GroupOf([Completed(4, u, v), Completed(2, v, w)]) == [u, v, w - w % 4]
    ensures GroupOf([Completed(4, u, v), Completed(2, v, w), Completed(0, w, x)]) == [u, v, w, x]
  {
    QuotientIsUnique(4, u, v / 16);
    QuotientIsUnique(16, v % 16, w / 4);
    QuotientIsUnique(64, w % 4, x);
  }

  lemma UngroupRoundTrip(group: seq<nat>)
    requires 2 <= |group| <= 4 && IsNumeral(64, group)
    ensures |GroupOf(Ungroup(group))| == |group|
    ensures forall i | 0 <= i < |group| - 1 :: GroupOf(Ungroup(group))[i] == group[i]
    ensures GroupOf(Ungroup(group))[|group| - 1] == group[|group| - 1] - UnusedBits(group)
  {
    hide GroupOf, Completed;
    if |group| == 2 {
      SextetRoundTrip(group[0], group[1], 0, 0);
      assert Ungroup(group) == [Completed(4, group[0], group[1])];
    } else if |group| == 3 {
      SextetRoundTrip(group[0], group[1], group[2], 0);
      assert Ungroup(group) == [Completed(4, group[0], group[1]), Completed(2, group[1], group[2])];
    } else {
      SextetRoundTrip(group[0], group[1], group[2], group[3]);
      assert Ungroup(group) ==
        [Completed(4, group[0], group[1]), Completed(2, group[1], group[2]), Completed(0, group[2], group[3])];
    }
  }

  lemma SymbolsInjective(alphabet: string, a: seq<nat>, b: seq<nat>)
    requires IsAlphabet(alphabet) && IsNumeral(64, a) && IsNumeral(64, b)
    ensures Symbols(alphabet, a) == Symbols(alphabet, b) <==> a == b
  {
    SymbolsInvert(alphabet, a);
    SymbolsInvert(alphabet, b);
  }

  lemma LastGroupCanonical(alphabet: string, group: seq<nat>, text: string)
    requires IsAlphabet(alphabet) && 2 <= |group| <= 4 && IsNumeral(64, group)
    requires text == Symbols(alphabet, group) + Padding(|group| - 1)
    ensures EncodeOver(alphabet, Ungroup(group)) == text <==> UnusedBits(group) == 0
  {
    var again, last := GroupOf(Ungroup(group)), |group| - 1;
    UngroupRoundTrip(group);
    SymbolsInjective(alphabet, again, group);
    assert EncodeOver(alphabet, Ungroup(group)) == Symbols(alphabet, again) + Padding(last);
    assert EncodeOver(alphabet, Ungroup(group))[..|group|] == Symbols(alphabet, again) &&
      text[..|group|] == Symbols(alphabet, group);
    assert again == group <==> again[last] == group[last];
  }

  lemma LastGroupIsPadded(alphabet: string, text: string, size: nat)
    requires '=' !in alphabet && 0 < |text| <= 4 && Matches(alphabet, text) && IsPadded(alphabet, text, size)
    ensures 2 <= size <= 4 && text == text[..size] + Padding(size - 1)
  {
    if size < 4 {
      assert text[3] == '=' && text[3] in text[..4];
    }
    assert size != 1 by {
      assert text[1] in text[..2] && text[1] in text[..3];
    }
  }

  lemma FullGroup(alphabet: string, text: string, size: nat)
    requires '=' !in alphabet && |text| > 4 && Matches(alphabet, text) && IsPadded(alphabet, text, size)
    ensures size >= 4 && IsPadded(alphabet, text[4..], size - 4)
  {
    assert text[3] in text[..4];
    Sliced(text, 4, size - 4);
  }

  lemma {:induction false} CanonicalShape(alphabet: string, sextets: seq<nat>, text: string)
    requires IsAlphabet(alphabet) && IsNumeral(64, sextets) && Matches(alphabet, text)
    requires IsPadded(alphabet, text, |sextets|) && text[..|sextets|] == Symbols(alphabet, sextets)
    ensures EncodeOver(alphabet, Unpack(sextets)) == text <==> UnusedBits(sextets) == 0
    decreases |text|
  {
    hide GroupOf, Completed;
    if 0 < |text| <= 4 {
      LastGroupIsPadded(alphabet, text, |sextets|);
      LastGroupCanonical(alphabet, sextets, text);
      DrainGroup(0, sextets, []);
      assert sextets + [] == sextets;
      assert Unpack(sextets) == Ungroup(sextets) + Unpack([]) == Ungroup(sextets);
    } else if |text| > 4 {
      FullGroup(alphabet, text, |sextets|);
      var group, rest := sextets[..4], sextets[4..];
      assert sextets == group + rest;
      SplitText(alphabet, group, rest, text);
      CanonicalShape(alphabet, rest, text[4..]);
      CanonicalGroup(alphabet, group, rest);
      assert EncodeOver(alphabet, Unpack(sextets))[4..] == EncodeOver(alphabet, Unpack(rest));
    } else {
      assert Unpack(sextets) == [] && EncodeOver(alphabet, []) == "";
    }
  }

  lemma SplitText(alphabet: string, group: seq<nat>, rest: seq<nat>, text: string)
    requires IsNumeral(|alphabet|, group) && IsNumeral(|alphabet|, rest) && |group| == 4
    requires IsNumeral(|alphabet|, group + rest) && |group + rest| <= |text|
    requires text[..|group + rest|] == Symbols(alphabet, group + rest)
    ensures text[4..][..|rest|] == Symbols(alphabet, rest)
    ensures text == Symbols(alphabet, group) + text[4..]
  {
    Sliced(text, 4, |rest|);
    assert Symbols(alphabet, group + rest) == Symbols(alphabet, group) + Symbols(alphabet, rest);
  }

  lemma CanonicalGroup(alphabet: string, group: seq<nat>, rest: seq<nat>)
    requires IsAlphabet(alphabet) && |group| == 4 && IsNumeral(64, group) && IsNumeral(64, rest)
    ensures IsNumeral(64, group + rest)
    ensures EncodeOver(alphabet, Unpack(group + rest)) ==
      Symbols(alphabet, group) + EncodeOver(alphabet, Unpack(rest))
    ensures UnusedBits(group + rest) == UnusedBits(rest)
  {
    DrainGroup(0, group, rest);
    UngroupRoundTrip(group);
    assert GroupOf(Ungroup(group)) == group;
    var bytes := Unpack(group + rest);
    assert bytes[..3] == Ungroup(group) && bytes[3..] == Unpack(rest);
    EncodeFirst(alphabet, bytes);
    assert (group + rest)[4..] == rest;
  }

  lemma CanonicalOver(alphabet: string, text: string)
    requires IsAlphabet(alphabet) && Matches(alphabet, text)
    ensures Over(alphabet, Clean(text))
    ensures EncodeOver(alphabet, DecodeOver(alphabet, text).value) == text <==>
      UnusedBits(DigitsOf(alphabet, Clean(text))) == 0
  {
    var size := MatchesIsPadded(alphabet, text);
    CleanIsPadded(alphabet, text, size);
    CleanIsOver(alphabet, text);
    DigitsInvert(alphabet, Clean(text));
    CanonicalShape(alphabet, DigitsOf(alphabet, Clean(text)), text);
  }

  lemma TwoSymbols(alphabet: string, text: string, last: nat)
    requires IsAlphabet(alphabet) && last < 16
    requires |text| == 4 && text[0] == alphabet[0] && text[1] == alphabet[last] && text[2] == text[3] == '='
    ensures DecodeOver(alphabet, text) == Some([0])
  {
    IndexOfDistinct(alphabet, 0);
    IndexOfDistinct(alphabet, last);
    assert text[..2] == [alphabet[0], alphabet[last]] && text[2..] == "==";
    CleanIsPadded(alphabet, text, 2);
    var sextets := DigitsOf(alphabet, Clean(text));
    assert sextets == [0, last];
    DrainGroup(0, sextets, []);
    assert sextets + [] == sextets;
    assert Completed(4, 0, last) == 0;
    assert Unpack(sextets) == [0];
    assert Matches(alphabet, text);
  }

  // ----- the standard alphabet -----

  function Encode(bytes: Bytes): string {
    AlphabetIsDistinct();
    EncodeOver(B64, bytes)
  }

  function Decode(text: string): Option<Bytes> {
    AlphabetIsDistinct();
    DecodeOver(B64, text)
  }

  method EncodeByGroups(bytes: Bytes) returns (out: string)
    ensures out == Encode(bytes)
  {
    AlphabetIsDistinct();
    out := EncodeLoop(B64, bytes);
  }

  method DecodeByAccumulator(text: string) returns (data: Option<Bytes>)
    ensures data == Decode(text)
  {
    AlphabetIsDistinct();
    if !Matches(B64, text) {
      return None;
    }
    CleanIsOver(B64, text);
    var bytes := DecodeLoop(B64, Clean(text));
    return Some(bytes);
  }

  /** Every byte sequence survives encoding. */
  lemma DecodeInvertsEncode(bytes: Bytes)
    ensures Decode(Encode(bytes)) == Some(bytes)
  {
    AlphabetIsDistinct();
    RoundTripOver(B64, bytes);
  }

  /** A decodable text is the encoding of its bytes exactly when its unused bits are zero (section 3.5 of RFC 4648). */
  lemma CanonicalSpelling(text: string)
    requires Decode(text).Some?
    ensures Over(B64, Clean(text))
    ensures Encode(Decode(text).value) == text <==> UnusedBits(DigitsOf(B64, Clean(text))) == 0
  {
    AlphabetIsDistinct();
    CanonicalOver(B64, text);
  }

  /** Strict decoding alone leaves several spellings of one byte string. */
  lemma StrictDecodingIsNotInjective()
    ensures "AA==" != "AB==" && Decode("AA==") == Decode("AB==") == Some([0])
  {
    AlphabetIsDistinct();
    SymbolAt(0);
    SymbolAt(1);
    TwoSymbols(B64, "AA==", 0);
    TwoSymbols(B64, "AB==", 1);
  }

  function DecodeSignature(signature: string): Option<Bytes> {
    match Decode(signature)
    case None => None
    case Some(raw) => if Encode(raw) == signature then Some(raw) else None
  }

  /** Each byte string has exactly one accepted spelling, its encoding; nothing else is accepted. */
  lemma OneSpellingPerSignature(signature: string, raw: Bytes)
    ensures DecodeSignature(signature) == Some(raw) <==> signature == Encode(raw)
  {
    DecodeInvertsEncode(raw);
  }
}
