/** Canonical JSON: one text for each value, whatever the insertion order of its keys. */
module CanonicalJson {
  import opened Wrappers
  import opened Positional
  import opened Alphabets
  import opened Text

  /** Object fields are listed in insertion order. */
  datatype Json =
    | Null
    | Bool(b: bool)
    | Int(n: int)
    | Str(s: string)
    | Arr(items: seq<Json>)
    | Obj(fields: seq<Field>)

  datatype Field = Field(key: string, value: Json)

  ghost predicate DistinctKeys(fields: seq<Field>) {
    forall i, j | 0 <= i < j < |fields| :: fields[i].key != fields[j].key
  }

  /** No object, at any depth, repeats a key. */
  ghost predicate WellFormed(v: Json) {
    match v
    case Arr(items) => forall i | 0 <= i < |items| :: WellFormed(items[i])
    case Obj(fields) => DistinctKeys(fields) && forall i | 0 <= i < |fields| :: WellFormed(fields[i].value)
    case _ => true
  }

  ghost function Keys(fields: seq<Field>): set<string> {
    set f | f in fields :: f.key
  }

  /** Equal up to the order in which object keys were inserted. */
  ghost predicate Same(a: Json, b: Json) {
    match a
    case Arr(items) =>
      && b.Arr?
      && |items| == |b.items|
      && forall i | 0 <= i < |items| :: Same(items[i], b.items[i])
    case Obj(fields) =>
      && b.Obj?
      && Keys(fields) == Keys(b.fields)
      && forall f, g | f in fields && g in b.fields && f.key == g.key :: Same(f.value, g.value)
    case _ => a == b
  }

  // ----- key order -----

  function Compare(a: string, b: string): int {
    if a == "" && b == "" then 0
    else if a == "" then -1
    else if b == "" then 1
    else if a[0] != b[0] then a[0] as int - b[0] as int
    else Compare(a[1..], b[1..])
  }

  /** Up to position i the two strings agree, and there a ends or has the lesser code point. */
  ghost predicate PrecedesAt(a: string, b: string, i: int) {
    0 <= i <= |a| && i < |b| && a[..i] == b[..i] && (i < |a| ==> a[i] < b[i])
  }

  /** Code point order: a ends, or has the lesser code point, at the first position where they differ. */
  ghost predicate Precedes(a: string, b: string) {
    exists i :: PrecedesAt(a, b, i)
  }

  lemma {:induction false} CompareSkips(p: string, a: string, b: string)
    ensures Compare(p + a, p + b) == Compare(a, b)
  {
    if p == "" {
      assert p + a == a && p + b == b;
    } else {
      assert (p + a)[1..] == p[1..] + a && (p + b)[1..] == p[1..] + b;
      CompareSkips(p[1..], a, b);
    }
  }

  /** The comparison's value where the strings first differ: the lesser code point first. */
  lemma CompareDiffers(p: string, c: char, x: string, d: char, y: string)
    requires c != d
    ensures Compare(p + ([c] + x), p + ([d] + y)) == c as int - d as int
  {
    CompareSkips(p, [c] + x, [d] + y);
  }

  /** A proper prefix comes first. */
  lemma ComparePrefix(p: string, x: string)
    requires x != ""
    ensures Compare(p, p + x) == -1 && Compare(p + x, p) == 1
  {
    CompareSkips(p, "", x);
    CompareSkips(p, x, "");
    assert p + "" == p;
  }

  lemma CompareAt(a: string, b: string, i: int)
    requires PrecedesAt(a, b, i)
    ensures Compare(a, b) < 0 && Compare(b, a) > 0
  {
    var p := a[..i];
    if i == |a| {
      assert a == p && b == p + b[i..];
      ComparePrefix(p, b[i..]);
    } else {
      assert a == p + ([a[i]] + a[i + 1..]) && b == p + ([b[i]] + b[i + 1..]);
      CompareDiffers(p, a[i], a[i + 1..], b[i], b[i + 1..]);
      CompareDiffers(p, b[i], b[i + 1..], a[i], a[i + 1..]);
    }
  }

  lemma FirstDifference(a: string, b: string)
    requires a != b
    ensures Precedes(a, b) || Precedes(b, a)
  {
    var i := 0;
    while i < |a| && i < |b| && a[i] == b[i]
      invariant i <= |a| && i <= |b| && a[..i] == b[..i]
    {
      i := i + 1;
    }
    assert PrecedesAt(a, b, i) || PrecedesAt(b, a, i);
  }

  /** The comparison is code point order. */
  lemma CompareMeans(a: string, b: string)
    ensures Compare(a, b) < 0 <==> Precedes(a, b)
    ensures Compare(a, b) > 0 <==> Precedes(b, a)
    ensures Compare(a, b) == 0 <==> a == b
  {
    CompareIsTotal(a, b);
    if a != b {
      FirstDifference(a, b);
    }
    hide Compare;
    forall i | PrecedesAt(a, b, i)
      ensures Compare(a, b) < 0
    {
      CompareAt(a, b, i);
    }
    forall i | PrecedesAt(b, a, i)
      ensures Compare(a, b) > 0
    {
      CompareAt(b, a, i);
    }
  }

  /** The iterator-driven loop; each iteration takes one code point of each string. */
  method CompareCodePoints(a: string, b: string) returns (order: int)
    ensures order < 0 <==> Precedes(a, b)
    ensures order > 0 <==> Precedes(b, a)
    ensures order == 0 <==> a == b
    ensures order == Compare(a, b)
  {
    CompareMeans(a, b);
    hide Precedes;
    var i := 0;
    while true
      invariant i <= |a| && i <= |b|
      invariant Compare(a[i..], b[i..]) == Compare(a, b)
      decreases |a| - i
    {
      if i == |a| && i == |b| {
        return 0;
      }
      if i == |a| {
        return -1;
      }
      if i == |b| {
        return 1;
      }
      if a[i] != b[i] {
        return a[i] as int - b[i] as int;
      }
      assert a[i..][1..] == a[i + 1..] && b[i..][1..] == b[i + 1..];
      i := i + 1;
    }
  }

  /** The comparison is a strict total order on strings. */
  lemma {:induction false} CompareIsTotal(a: string, b: string)
    ensures Compare(a, b) == 0 <==> a == b
    ensures Compare(a, b) < 0 <==> Compare(b, a) > 0
  {
    if a != "" && b != "" && a[0] == b[0] {
      CompareIsTotal(a[1..], b[1..]);
      assert a == [a[0]] + a[1..] && b == [b[0]] + b[1..];
    }
  }

  lemma {:induction false} CompareIsTransitive(a: string, b: string, c: string)
    requires Compare(a, b) < 0 && Compare(b, c) < 0
    ensures Compare(a, c) < 0
  {
    if a != "" && b != "" && c != "" && a[0] == b[0] && b[0] == c[0] {
      CompareIsTransitive(a[1..], b[1..], c[1..]);
    }
  }

  ghost predicate Sorted(fields: seq<Field>) {
    forall i, j | 0 <= i < j < |fields| :: Compare(fields[i].key, fields[j].key) < 0
  }

  function Insert(f: Field, fields: seq<Field>): (inserted: seq<Field>)
    ensures multiset(inserted) == multiset{f} + multiset(fields)
    ensures forall g :: g in inserted <==> g == f || g in fields
  {
    if fields == [] || Compare(f.key, fields[0].key) <= 0 then
      assert multiset([f] + fields) == multiset{f} + multiset(fields);
      [f] + fields
    else
      assert fields == [fields[0]] + fields[1..];
      [fields[0]] + Insert(f, fields[1..])
  }

  /** Stands for the built-in sort; `SortIsDetermined` shows the choice of algorithm is immaterial. */
  function Sort(fields: seq<Field>): (sorted: seq<Field>)
    ensures multiset(sorted) == multiset(fields)
    ensures |sorted| == |fields|
    ensures forall f :: f in sorted <==> f in fields
  {
    if fields == [] then []
    else
      assert fields == [fields[0]] + fields[1..];
      var sorted := Insert(fields[0], Sort(fields[1..]));
      assert |sorted| == |multiset(sorted)| == |multiset(fields)|;
      sorted
  }

  lemma {:induction false} InsertSorts(f: Field, fields: seq<Field>)
    requires Sorted(fields) && forall g | g in fields :: g.key != f.key
    ensures Sorted(Insert(f, fields))
  {
    if fields != [] {
      CompareIsTotal(f.key, fields[0].key);
      if Compare(f.key, fields[0].key) <= 0 {
        forall j | 0 <= j < |fields|
          ensures Compare(f.key, fields[j].key) < 0
        {
          if j > 0 {
            CompareIsTransitive(f.key, fields[0].key, fields[j].key);
          }
        }
      } else {
        InsertSorts(f, fields[1..]);
        forall g | g in Insert(f, fields[1..])
          ensures Compare(fields[0].key, g.key) < 0
        {
          CompareIsTotal(fields[0].key, f.key);
          assert g == f || g in fields[1..];
        }
      }
    }
  }

  lemma {:induction false} SortSorts(fields: seq<Field>)
    requires DistinctKeys(fields)
    ensures Sorted(Sort(fields)) && DistinctKeys(Sort(fields))
  {
    if fields != [] {
      SortSorts(fields[1..]);
      InsertSorts(fields[0], Sort(fields[1..]));
    }
    SortedIsDistinct(Sort(fields));
  }

  /** The keys are printed in ascending code point order. */
  lemma SortAscends(fields: seq<Field>)
    requires DistinctKeys(fields)
    ensures
      var sorted := Sort(fields);
      forall i, j | 0 <= i < j < |sorted| :: Precedes(sorted[i].key, sorted[j].key)
  {
    hide Compare, Precedes, Sort;
    SortSorts(fields);
    var sorted := Sort(fields);
    forall i, j | 0 <= i < j < |sorted|
      ensures Precedes(sorted[i].key, sorted[j].key)
    {
      CompareMeans(sorted[i].key, sorted[j].key);
    }
  }

  lemma SortedIsDistinct(fields: seq<Field>)
    requires Sorted(fields)
    ensures DistinctKeys(fields)
  {
    forall i, j | 0 <= i < j < |fields|
      ensures fields[i].key != fields[j].key
    {
      CompareIsTotal(fields[i].key, fields[j].key);
    }
  }

  lemma KeysOfTail(fields: seq<Field>)
    requires fields != [] && DistinctKeys(fields)
    ensures Keys(fields) == {fields[0].key} + Keys(fields[1..]) && fields[0].key !in Keys(fields[1..])
  {
    assert fields == [fields[0]] + fields[1..];
  }

  lemma LeastKey(fields: seq<Field>, key: string)
    requires Sorted(fields) && key in Keys(fields)
    ensures fields != [] && Compare(fields[0].key, key) <= 0
  {
    var f :| f in fields && f.key == key;
    var i :| 0 <= i < |fields| && fields[i] == f;
    CompareIsTotal(key, key);
  }

  /** Two sorted field lists over the same keys list those keys in the same order. */
  lemma {:induction false} SortedKeysAgree(a: seq<Field>, b: seq<Field>)
    requires Sorted(a) && Sorted(b) && Keys(a) == Keys(b)
    ensures |a| == |b| && forall i | 0 <= i < |a| :: a[i].key == b[i].key
    decreases |a|
  {
    hide Compare, Sorted, Keys, DistinctKeys;
    NoKeys(a);
    NoKeys(b);
    if a != [] {
      LeastKeysAgree(a, b);
      SortedTail(a);
      SortedTail(b);
      TailKeys(Keys(a), a[0].key, Keys(a[1..]), Keys(b[1..]));
      SortedKeysAgree(a[1..], b[1..]);
      assert a == [a[0]] + a[1..] && b == [b[0]] + b[1..];
    }
  }

  lemma NoKeys(fields: seq<Field>)
    ensures Keys(fields) == {} <==> fields == []
  {
    assert fields != [] ==> fields[0].key in Keys(fields);
  }

  lemma SortedTail(fields: seq<Field>)
    requires Sorted(fields) && fields != []
    ensures Sorted(fields[1..])
    ensures Keys(fields) == {fields[0].key} + Keys(fields[1..]) && fields[0].key !in Keys(fields[1..])
  {
    hide Compare;
    SortedIsDistinct(fields);
    KeysOfTail(fields);
  }

  lemma TailKeys(all: set<string>, head: string, a: set<string>, b: set<string>)
    requires all == {head} + a == {head} + b && head !in a && head !in b
    ensures a == b
  {
    assert a == all - {head};
  }

  lemma LeastKeysAgree(a: seq<Field>, b: seq<Field>)
    requires Sorted(a) && Sorted(b) && Keys(a) == Keys(b) && a != []
    ensures b != [] && a[0].key == b[0].key
  {
    hide Compare, Sorted;
    assert a[0].key in Keys(a);
    LeastKey(b, a[0].key);
    assert b[0].key in Keys(b);
    LeastKey(a, b[0].key);
    CompareIsTotal(a[0].key, b[0].key);
  }

  /** Any sorted rearrangement of fields with distinct keys is the one `Sort` returns. */
  lemma SortIsDetermined(fields: seq<Field>, sorted: seq<Field>)
    requires DistinctKeys(fields) && Sorted(sorted) && multiset(sorted) == multiset(fields)
    ensures sorted == Sort(fields)
  {
    SortSorts(fields);
    var ours := Sort(fields);
    SameMembers(sorted, ours);
    assert Keys(sorted) == Keys(ours);
    SortedKeysAgree(sorted, ours);
    forall i | 0 <= i < |sorted|
      ensures sorted[i] == ours[i]
    {
      FieldWithKey(ours, sorted[i], ours[i]);
    }
  }

  lemma SameMembers(a: seq<Field>, b: seq<Field>)
    requires multiset(a) == multiset(b)
    ensures forall f :: f in a <==> f in b
  {
    assert forall f :: f in a <==> f in multiset(a);
    assert forall f :: f in b <==> f in multiset(b);
  }

  lemma FieldWithKey(fields: seq<Field>, f: Field, g: Field)
    requires DistinctKeys(fields) && f in fields && g in fields && f.key == g.key
    ensures f == g
  {
  }

  // ----- scalars -----

  const DECIMAL: string := "0123456789"

  lemma DecimalIsDistinct()
    ensures |DECIMAL| == 10 && Distinct(DECIMAL)
    ensures forall i | 0 <= i < 10 :: DECIMAL[i] as int == '0' as int + i
  {
    assert forall k | 0 <= k < 10 :: "0123456789"[k] as int == '0' as int + k;
  }

  /** The decimal text of a natural number, without leading zeros. */
  function NatText(n: nat): (text: string)
    ensures text != ""
  {
    DecimalIsDistinct();
    if n == 0 then "0" else Symbols(DECIMAL, Digits(10, n))
  }

  /** `BigInt.toString`, and `String` on the safe integers. */
  function EncodeNumber(n: int): (text: string)
    ensures text != ""
  {
    if n < 0 then "-" + NatText(-n) else NatText(n)
  }

  predicate IsNumberChar(c: char) {
    c == '-' || '0' <= c <= '9'
  }

  lemma NatTextDigits(n: nat)
    ensures forall i | 0 <= i < |NatText(n)| :: '0' <= NatText(n)[i] <= '9'
  {
    DecimalIsDistinct();
  }

  lemma NatTextInjective(m: nat, n: nat)
    requires NatText(m) == NatText(n)
    ensures m == n
  {
    DecimalIsDistinct();
    NatTextZero(m);
    NatTextZero(n);
    if m > 0 && n > 0 {
      SymbolsInvert(DECIMAL, Digits(10, m));
      SymbolsInvert(DECIMAL, Digits(10, n));
      ValueOfDigits(10, m);
      ValueOfDigits(10, n);
    }
  }

  lemma NatTextZero(n: nat)
    ensures NatText(n)[0] == '0' <==> n == 0
  {
    DecimalIsDistinct();
  }

  lemma NumberChars(n: int)
    ensures forall i | 0 <= i < |EncodeNumber(n)| :: IsNumberChar(EncodeNumber(n)[i])
  {
    NatTextDigits(if n < 0 then -n else n);
  }

  lemma NumberInjective(m: int, n: int)
    requires EncodeNumber(m) == EncodeNumber(n)
    ensures m == n
  {
    SignOf(m);
    SignOf(n);
    NatTextInjective(if m < 0 then -m else m, if n < 0 then -n else n);
  }

  lemma SignOf(n: int)
    ensures EncodeNumber(n)[0] == '-' <==> n < 0
    ensures n < 0 ==> EncodeNumber(n)[1..] == NatText(-n)
  {
    NatTextDigits(if n < 0 then -n else n);
  }

  /** Nothing follows, or what follows cannot continue a number. */
  predicate Delimited(rest: string) {
    rest == "" || !IsNumberChar(rest[0])
  }

  lemma {:induction false} NumberEnds(x: string, y: string, r: string, s: string)
    requires forall i | 0 <= i < |x| :: IsNumberChar(x[i])
    requires forall i | 0 <= i < |y| :: IsNumberChar(y[i])
    requires Delimited(r) && Delimited(s) && x + r == y + s
    ensures x == y && r == s
  {
    assert x == "" ==> x + r == r;
    assert y == "" ==> y + s == s;
    assert x != "" ==> (x + r)[0] == x[0] && (x + r)[1..] == x[1..] + r;
    assert y != "" ==> (y + s)[0] == y[0] && (y + s)[1..] == y[1..] + s;
    if x != "" && y != "" {
      NumberEnds(x[1..], y[1..], r, s);
      assert x == [x[0]] + x[1..] && y == [y[0]] + y[1..];
    }
  }

  function HexDigit(n: nat): char
    requires n < 16
  {
    if n < 10 then ('0' as int + n) as char else ('a' as int + n - 10) as char
  }

  /** The escapes of `JSON.stringify`; every other code point stands for itself. */
  function EscapeChar(c: char): (text: string)
    ensures text != "" && text[0] != '"'
  {
    var n := c as int;
    if c == '"' then ['\\', '"']
    else if c == '\\' then ['\\', '\\']
    else if n == 8 then "\\b"
    else if n == 9 then "\\t"
    else if n == 10 then "\\n"
    else if n == 12 then "\\f"
    else if n == 13 then "\\r"
    else if n < 32 then "\\u00" + [HexDigit(n / 16), HexDigit(n % 16)]
    else [c]
  }

  function Escape(s: string): string {
    if s == "" then "" else EscapeChar(s[0]) + Escape(s[1..])
  }

  function EncodeString(s: string): string {
    "\"" + Escape(s) + "\""
  }

  /** A hexadecimal digit's value, in either case. */
  function HexValue(c: char): Option<nat> {
    if '0' <= c <= '9' then Some(c as int - '0' as int)
    else if 'a' <= c <= 'f' then Some(c as int - 'a' as int + 10)
    else if 'A' <= c <= 'F' then Some(c as int - 'A' as int + 10)
    else None
  }

  /** What a reader makes of the character after a backslash, by section 7 of RFC 8259; `\u` aside. */
  function ShortEscape(c: char): Option<char> {
    if c == '"' || c == '\\' || c == '/' then Some(c)
    else if c == 'b' then Some(8 as char)
    else if c == 'f' then Some(12 as char)
    else if c == 'n' then Some(10 as char)
    else if c == 'r' then Some(13 as char)
    else if c == 't' then Some(9 as char)
    else None
  }

  /** The first character a reader finds in the body of a JSON string, and the rest; `\u` escapes beyond U+00FF are not
      read. */
  function ReadChar(text: string): Option<(char, string)> {
    if text == "" || text[0] == '"' || text[0] as int < 32 then None
    else if text[0] != '\\' then Some((text[0], text[1..]))
    else if |text| >= 6 && text[1] == 'u' then
      (match (HexValue(text[2]), HexValue(text[3]), HexValue(text[4]), HexValue(text[5]))
       case (Some(0), Some(0), Some(h), Some(l)) => Some(((h * 16 + l) as char, text[6..]))
       case _ => None)
    else if |text| >= 2 then
      (match ShortEscape(text[1])
       case Some(c) => Some((c, text[2..]))
       case None => None)
    else None
  }

  function ReadString(text: string): Option<string>
    decreases |text|
  {
    if text == "" then Some("")
    else
      match ReadChar(text)
      case None => None
      case Some((c, rest)) =>
        if |rest| >= |text| then None
        else
          match ReadString(rest)
          case None => None
          case Some(s) => Some([c] + s)
  }

  lemma ReadsEscape(c: char, rest: string)
    ensures ReadChar(EscapeChar(c) + rest) == Some((c, rest))
  {
    var e := EscapeChar(c);
    var text := e + rest;
    assert text[|e|..] == rest;
    assert forall i | 0 <= i < |e| :: text[i] == e[i];
    var n := c as int;
    if n < 32 && |e| == 6 {
      assert HexValue(e[4]) == Some(n / 16) && HexValue(e[5]) == Some(n % 16);
    }
  }

  /** A reader of JSON strings recovers the string. */
  lemma {:induction false} ReadInvertsEscape(s: string)
    ensures ReadString(Escape(s)) == Some(s)
  {
    if s != "" {
      hide EscapeChar;
      ReadInvertsEscape(s[1..]);
      ReadsEscape(s[0], Escape(s[1..]));
      assert s == [s[0]] + s[1..];
    }
  }

  /** Only what must be escaped is: two characters where there is a short escape, else six with lower-case digits. */
  lemma EscapesAreShort(c: char)
    ensures EscapeChar(c) == [c] <==> c as int >= 32 && c != '"' && c != '\\'
    ensures |EscapeChar(c)| == 2 <==>
      c == '"' || c == '\\' || c as int == 8 || c as int == 9 || c as int == 10 || c as int == 12 || c as int == 13
    ensures |EscapeChar(c)| == 1 || |EscapeChar(c)| == 2 || |EscapeChar(c)| == 6
    ensures forall d | d in EscapeChar(c) && 'A' <= d <= 'F' :: d == c
  {
  }

  lemma EscapeCharEnds(c: char, d: char, x: string, y: string)
    requires EscapeChar(c) + x == EscapeChar(d) + y
    ensures c == d && x == y
  {
    var a, b := EscapeChar(c), EscapeChar(d);
    assert a[0] == (a + x)[0] == (b + y)[0] == b[0];
    if a[0] == '\\' {
      assert a[1] == (a + x)[1] == (b + y)[1] == b[1];
      if a[1] == 'u' {
        assert a[4] == (a + x)[4] == (b + y)[4] == b[4];
        assert a[5] == (a + x)[5] == (b + y)[5] == b[5];
      }
    }
    assert c == d;
    assert (a + x)[|a|..] == x && (b + y)[|b|..] == y;
  }

  lemma EscapeStep(s: string, x: string)
    ensures s == "" ==> Escape(s) + "\"" + x == "\"" + x
    ensures s != "" ==> Escape(s) + "\"" + x == EscapeChar(s[0]) + (Escape(s[1..]) + "\"" + x)
  {
  }

  lemma FirstChar(a: string, x: string)
    requires a != ""
    ensures (a + x)[0] == a[0]
  {
  }

  lemma {:induction false} StringEnds(s: string, t: string, x: string, y: string)
    requires Escape(s) + "\"" + x == Escape(t) + "\"" + y
    ensures s == t && x == y
  {
    EscapeStep(s, x);
    EscapeStep(t, y);
    if s != "" && t != "" {
      EscapeCharEnds(s[0], t[0], Escape(s[1..]) + "\"" + x, Escape(t[1..]) + "\"" + y);
      StringEnds(s[1..], t[1..], x, y);
      assert s == [s[0]] + s[1..] && t == [t[0]] + t[1..];
    } else if s != "" {
      FirstChar(EscapeChar(s[0]), Escape(s[1..]) + "\"" + x);
    } else if t != "" {
      FirstChar(EscapeChar(t[0]), Escape(t[1..]) + "\"" + y);
    } else {
      assert ("\"" + x)[1..] == x && ("\"" + y)[1..] == y;
    }
  }

  // ----- values -----

  function FieldText(key: string, value: string): string {
    EncodeString(key) + ":" + value
  }

  function Canonicalize(v: Json): (text: string)
    ensures text != ""
    decreases v
  {
    match v
    case Null => "null"
    case Bool(b) => if b then "true" else "false"
    case Int(n) => EncodeNumber(n)
    case Str(s) => EncodeString(s)
    case Arr(items) => "[" + Join(ItemTexts(items), ',') + "]"
    case Obj(fields) => "{" + Join(FieldTexts(v, Sort(fields)), ',') + "}"
  }

  function ItemTexts(items: seq<Json>): (texts: seq<string>)
    ensures |texts| == |items|
    decreases items
  {
    seq(|items|, i requires 0 <= i < |items| => Canonicalize(items[i]))
  }

  function FieldTexts(ghost whole: Json, fields: seq<Field>): (texts: seq<string>)
    requires whole.Obj? && forall f | f in fields :: f in whole.fields
    ensures |texts| == |fields|
    decreases whole, 0
  {
    seq(|fields|, i requires 0 <= i < |fields| =>
      assert fields[i] in fields;
      FieldText(fields[i].key, Canonicalize(fields[i].value)))
  }

  /** The first character tells which kind of value a text spells. */
  lemma HeadCharacter(v: Json)
    ensures
      var c := Canonicalize(v)[0];
      match v
      case Null => c == 'n'
      case Bool(b) => c == if b then 't' else 'f'
      case Int(_) => IsNumberChar(c)
      case Str(_) => c == '"'
      case Arr(_) => c == '['
      case Obj(_) => c == '{'
  {
    if v.Int? {
      NumberChars(v.n);
    }
  }

  /** Texts that, when delimited, can be told apart from whatever follows them. */
  ghost predicate Ends(a: string, b: string) {
    forall x, y | Delimited(x) && Delimited(y) && a + x == b + y :: a == b && x == y
  }

  lemma JoinHead(texts: seq<string>, close: char, rest: string)
    ensures
      var text := Join(texts, ',') + [close] + rest;
      if texts == [] then text[0] == close else texts[0] != "" ==> text[0] == texts[0][0]
  {
  }

  lemma {:induction false} ListEnds(a: seq<string>, b: seq<string>, close: char, r: string, s: string)
    requires close != ',' && !IsNumberChar(close)
    requires forall i | 0 <= i < |a| :: a[i] != "" && a[i][0] != close
    requires forall i | 0 <= i < |b| :: b[i] != "" && b[i][0] != close
    requires forall i | 0 <= i < |a| && i < |b| :: Ends(a[i], b[i])
    requires Join(a, ',') + [close] + r == Join(b, ',') + [close] + s
    ensures a == b && r == s
  {
    if a == [] || b == [] {
      var left, right := Join(a, ',') + [close] + r, Join(b, ',') + [close] + s;
      JoinHead(a, close, r);
      JoinHead(b, close, s);
      assert left[1..] == r && right[1..] == s;
    } else {
      JoinStep(a, close, r);
      JoinStep(b, close, s);
      var x, y := AfterFirst(a, close, r), AfterFirst(b, close, s);
      assert Ends(a[0], b[0]);
      assert x[0] == y[0] && x[1..] == y[1..];
      if |a| > 1 && |b| > 1 {
        ListEnds(a[1..], b[1..], close, r, s);
        assert a == [a[0]] + a[1..] && b == [b[0]] + b[1..];
      }
    }
  }

  /** What follows the first of several joined texts. */
  function AfterFirst(texts: seq<string>, close: char, rest: string): (after: string)
    requires texts != []
    ensures after != "" && after[0] == (if |texts| == 1 then close else ',')
    ensures after[1..] == if |texts| == 1 then rest else Join(texts[1..], ',') + [close] + rest
  {
    if |texts| == 1 then [close] + rest else [','] + (Join(texts[1..], ',') + [close] + rest)
  }

  lemma JoinStep(texts: seq<string>, close: char, rest: string)
    requires texts != []
    ensures Join(texts, ',') + [close] + rest == texts[0] + AfterFirst(texts, close, rest)
  {
  }

  lemma AfterQuote(key: string, value: string, rest: string)
    ensures (FieldText(key, value) + rest)[1..] == Escape(key) + "\"" + (":" + (value + rest))
  {
  }

  lemma FieldEnds(k: string, l: string, a: string, b: string)
    requires Ends(a, b)
    ensures Ends(FieldText(k, a), FieldText(l, b))
    ensures FieldText(k, a) == FieldText(l, b) ==> k == l && a == b
  {
    forall x, y | Delimited(x) && Delimited(y) && FieldText(k, a) + x == FieldText(l, b) + y
      ensures k == l && a == b && x == y
    {
      AfterQuote(k, a, x);
      AfterQuote(l, b, y);
      StringEnds(k, l, ":" + (a + x), ":" + (b + y));
      assert (":" + (a + x))[1..] == a + x && (":" + (b + y))[1..] == b + y;
    }
    assert FieldText(k, a) + "" == FieldText(k, a) && FieldText(l, b) + "" == FieldText(l, b);
    assert Delimited("");
  }

  lemma CloseIsNoHead(v: Json)
    ensures Canonicalize(v)[0] != ']'
  {
    HeadCharacter(v);
  }

  lemma {:induction false} ItemsEnd(a: Json, b: Json, x: string, y: string)
    requires a.Arr? && b.Arr? && Canonicalize(a) + x == Canonicalize(b) + y
    ensures Canonicalize(a) == Canonicalize(b) && x == y && ItemTexts(a.items) == ItemTexts(b.items)
    decreases a, 0
  {
    var s, t := ItemTexts(a.items), ItemTexts(b.items);
    assert Canonicalize(a) == "[" + Join(s, ',') + "]" && Canonicalize(b) == "[" + Join(t, ',') + "]";
    forall i | 0 <= i < |s|
      ensures s[i] != "" && s[i][0] != ']'
    {
      CloseIsNoHead(a.items[i]);
    }
    forall i | 0 <= i < |t|
      ensures t[i] != "" && t[i][0] != ']'
    {
      CloseIsNoHead(b.items[i]);
    }
    hide Join, Ends;
    forall i | 0 <= i < |s| && i < |t|
      ensures Ends(s[i], t[i])
    {
      TextEnds(a.items[i], b.items[i]);
    }
    hide Canonicalize, ItemTexts;
    Unbracket('[', ']', Join(s, ','), x);
    Unbracket('[', ']', Join(t, ','), y);
    ListEnds(s, t, ']', x, y);
  }

  lemma {:induction false} FieldsEnd(a: Json, b: Json, x: string, y: string)
    requires a.Obj? && b.Obj? && Canonicalize(a) + x == Canonicalize(b) + y
    ensures Canonicalize(a) == Canonicalize(b) && x == y
    ensures FieldTexts(a, Sort(a.fields)) == FieldTexts(b, Sort(b.fields))
    decreases a, 0
  {
    hide Join, Ends, Sort;
    var fa, fb := Sort(a.fields), Sort(b.fields);
    var s, t := FieldTexts(a, fa), FieldTexts(b, fb);
    assert Canonicalize(a) == "{" + Join(s, ',') + "}" && Canonicalize(b) == "{" + Join(t, ',') + "}";
    forall i | 0 <= i < |s| && i < |t|
      ensures Ends(s[i], t[i])
    {
      assert fa[i] in fa && fb[i] in fb;
      TextEnds(fa[i].value, fb[i].value);
      hide FieldText;
      FieldEnds(fa[i].key, fb[i].key, Canonicalize(fa[i].value), Canonicalize(fb[i].value));
    }
    FieldHeads(a, fa);
    FieldHeads(b, fb);
    hide Canonicalize, FieldTexts;
    Unbracket('{', '}', Join(s, ','), x);
    Unbracket('{', '}', Join(t, ','), y);
    ListEnds(s, t, '}', x, y);
  }

  lemma FieldHeads(whole: Json, fields: seq<Field>)
    requires whole.Obj? && forall f | f in fields :: f in whole.fields
    ensures
      var texts := FieldTexts(whole, fields);
      forall i | 0 <= i < |texts| :: texts[i] != "" && texts[i][0] == '\"'
  {
    hide Canonicalize, Escape;
  }

  /** An array or object text shows its own end, whatever follows. */
  lemma {:induction false} BracketEnds(a: Json, b: Json, x: string, y: string)
    requires (a.Arr? && b.Arr?) || (a.Obj? && b.Obj?)
    requires Canonicalize(a) + x == Canonicalize(b) + y
    ensures Canonicalize(a) == Canonicalize(b) && x == y
    ensures a.Arr? ==> ItemTexts(a.items) == ItemTexts(b.items)
    ensures a.Obj? ==> FieldTexts(a, Sort(a.fields)) == FieldTexts(b, Sort(b.fields))
    decreases a, 1
  {
    hide Canonicalize, ItemTexts, FieldTexts, Sort;
    if a.Arr? {
      ItemsEnd(a, b, x, y);
    } else {
      FieldsEnd(a, b, x, y);
    }
  }

  lemma Unbracket(open: char, close: char, body: string, rest: string)
    ensures ([open] + body + [close] + rest)[0] == open
    ensures ([open] + body + [close] + rest)[1..] == body + [close] + rest
  {
  }

  lemma {:induction false} TextEnds(a: Json, b: Json)
    ensures Ends(Canonicalize(a), Canonicalize(b))
    decreases a, 2
  {
    hide Sort, EscapeChar, NatText, Join, ItemTexts, FieldTexts;
    forall x, y | Delimited(x) && Delimited(y) && Canonicalize(a) + x == Canonicalize(b) + y
      ensures Canonicalize(a) == Canonicalize(b) && x == y
    {
      SameHead(a, b, x, y);
      match a
      case Int(m) =>
        NumberChars(m);
        NumberChars(b.n);
        NumberEnds(EncodeNumber(m), EncodeNumber(b.n), x, y);
      case Str(s) =>
        var left, right := Canonicalize(a) + x, Canonicalize(b) + y;
        assert left[1..] == Escape(s) + "\"" + x && right[1..] == Escape(b.s) + "\"" + y;
        StringEnds(s, b.s, x, y);
      case Arr(_) =>
        BracketEnds(a, b, x, y);
      case Obj(_) =>
        BracketEnds(a, b, x, y);
      case _ =>
        assert (Canonicalize(a) + x)[|Canonicalize(a)|..] == x;
        assert (Canonicalize(b) + y)[|Canonicalize(b)|..] == y;
    }
  }

  /** Texts with a common beginning spell the same kind of value, and the same literal. */
  lemma SameHead(a: Json, b: Json, x: string, y: string)
    requires Canonicalize(a) + x == Canonicalize(b) + y
    ensures (a.Null? && b.Null?) || (a.Bool? && a == b) || (a.Int? && b.Int?) || (a.Str? && b.Str?)
      || (a.Arr? && b.Arr?) || (a.Obj? && b.Obj?)
  {
    HeadCharacter(a);
    HeadCharacter(b);
    FirstChar(Canonicalize(a), x);
    FirstChar(Canonicalize(b), y);
  }

  /** Equal canonical text means equal values, up to key order. */
  lemma {:induction false} TextInjective(a: Json, b: Json)
    requires WellFormed(a) && WellFormed(b) && Canonicalize(a) == Canonicalize(b)
    ensures Same(a, b)
    decreases a
  {
    SameHead(a, b, "", "");
    match a
    case Int(m) => NumberInjective(m, b.n);
    case Str(s) =>
      EscapedOnce(s);
      EscapedOnce(b.s);
      StringEnds(s, b.s, "", "");
    case Arr(items) =>
      BracketEnds(a, b, "", "");
      forall i | 0 <= i < |items|
        ensures |b.items| == |items| && Same(items[i], b.items[i])
      {
        assert ItemTexts(items)[i] == ItemTexts(b.items)[i];
        TextInjective(items[i], b.items[i]);
      }
    case Obj(_) =>
      BracketEnds(a, b, "", "");
      FieldsInjective(a, b);
    case _ =>
  }

  lemma EscapedOnce(s: string)
    ensures EncodeString(s)[1..] == Escape(s) + "\"" + ""
  {
  }

  lemma {:induction false} FieldsInjective(a: Json, b: Json)
    requires a.Obj? && b.Obj? && WellFormed(a) && WellFormed(b)
    requires FieldTexts(a, Sort(a.fields)) == FieldTexts(b, Sort(b.fields))
    ensures Same(a, b)
    decreases a, 0
  {
    var fa, fb := Sort(a.fields), Sort(b.fields);
    SortSorts(b.fields);
    hide Sort, FieldText, Ends;
    forall i | 0 <= i < |fa|
      ensures |fa| == |fb| && fa[i].key == fb[i].key && Same(fa[i].value, fb[i].value)
    {
      assert fa[i] in fa && fb[i] in fb;
      TextEnds(fa[i].value, fb[i].value);
      assert FieldTexts(a, fa)[i] == FieldTexts(b, fb)[i];
      FieldEnds(fa[i].key, fb[i].key, Canonicalize(fa[i].value), Canonicalize(fb[i].value));
      FieldIsWellFormed(a, fa[i]);
      FieldIsWellFormed(b, fb[i]);
      hide Canonicalize, WellFormed, Same, FieldTexts;
      TextInjective(fa[i].value, fb[i].value);
    }
    assert |fa| == |fb|;
    hide FieldTexts, Canonicalize;
    FieldsPair(a.fields, b.fields, fa, fb);
  }

  lemma FieldsPair(a: seq<Field>, b: seq<Field>, fa: seq<Field>, fb: seq<Field>)
    requires DistinctKeys(fb) && |fa| == |fb|
    requires (forall f :: f in a <==> f in fa) && forall f :: f in b <==> f in fb
    requires forall i | 0 <= i < |fa| :: fa[i].key == fb[i].key && Same(fa[i].value, fb[i].value)
    ensures Same(Obj(a), Obj(b))
  {
    PairedKeys(fa, fb);
    assert Keys(a) == Keys(fa) && Keys(b) == Keys(fb);
    forall f, g | f in a && g in b && f.key == g.key
      ensures Same(f.value, g.value)
    {
      var i :| 0 <= i < |fa| && fa[i] == f;
      FieldWithKey(fb, g, fb[i]);
    }
  }

  lemma FieldIsWellFormed(v: Json, f: Field)
    requires v.Obj? && WellFormed(v) && f in v.fields
    ensures WellFormed(f.value)
  {
  }

  lemma PairedKeys(a: seq<Field>, b: seq<Field>)
    requires |a| == |b| && forall i | 0 <= i < |a| :: a[i].key == b[i].key
    ensures Keys(a) == Keys(b)
  {
    forall k | k in Keys(a)
      ensures k in Keys(b)
    {
      var i :| 0 <= i < |a| && a[i].key == k;
      assert b[i] in b;
    }
    forall k | k in Keys(b)
      ensures k in Keys(a)
    {
      var i :| 0 <= i < |b| && b[i].key == k;
      assert a[i] in a;
    }
  }

  /** Key order never shows: values equal up to key order have one canonical text. */
  lemma {:induction false} TextIgnoresKeyOrder(a: Json, b: Json)
    requires WellFormed(a) && WellFormed(b) && Same(a, b)
    ensures Canonicalize(a) == Canonicalize(b)
    decreases a
  {
    hide Sort, Escape, NatText, Join;
    match a
    case Arr(items) =>
      forall i | 0 <= i < |items|
        ensures Canonicalize(items[i]) == Canonicalize(b.items[i])
      {
        TextIgnoresKeyOrder(items[i], b.items[i]);
      }
      assert ItemTexts(items) == ItemTexts(b.items);
    case Obj(_) =>
      FieldTextsIgnoreKeyOrder(a, b);
    case _ =>
  }

  lemma {:induction false} FieldTextsIgnoreKeyOrder(a: Json, b: Json)
    requires a.Obj? && b.Obj? && WellFormed(a) && WellFormed(b) && Same(a, b)
    ensures FieldTexts(a, Sort(a.fields)) == FieldTexts(b, Sort(b.fields))
    decreases a, 0
  {
    hide Sort, Canonicalize, FieldText;
    var fa, fb := Sort(a.fields), Sort(b.fields);
    SortSorts(a.fields);
    SortSorts(b.fields);
    assert Keys(fa) == Keys(a.fields) && Keys(fb) == Keys(b.fields);
    SortedKeysAgree(fa, fb);
    forall i | 0 <= i < |fa|
      ensures FieldTexts(a, fa)[i] == FieldTexts(b, fb)[i]
    {
      assert fa[i] in fa && fb[i] in fb;
      FieldIsWellFormed(a, fa[i]);
      FieldIsWellFormed(b, fb[i]);
      TextIgnoresKeyOrder(fa[i].value, fb[i].value);
    }
  }

  /** One canonical text per value: texts agree exactly when the values do, key order aside. */
  lemma OneTextPerValue(a: Json, b: Json)
    requires WellFormed(a) && WellFormed(b)
    ensures Canonicalize(a) == Canonicalize(b) <==> Same(a, b)
  {
    if Canonicalize(a) == Canonicalize(b) {
      TextInjective(a, b);
    }
    if Same(a, b) {
      TextIgnoresKeyOrder(a, b);
    }
  }

  // ----- texts of records -----

  predicate IsPlain(s: string) {
    forall i | 0 <= i < |s| :: s[i] as int >= 32 && s[i] != '"' && s[i] != '\\'
  }

  lemma {:induction false} PlainEscape(s: string)
    requires IsPlain(s)
    ensures Escape(s) == s
  {
    if s != "" {
      PlainEscape(s[1..]);
      assert s == [s[0]] + s[1..];
    }
  }

  /** One entry of an object: the quoted key, a colon and the value's text. */
  function Labelled(key: string, text: string): string {
    "\"" + key + "\":" + text
  }

  function Entry(f: Field): string {
    Labelled(f.key, Canonicalize(f.value))
  }

  function Entries(fields: seq<Field>): (entries: seq<string>)
    ensures |entries| == |fields|
  {
    seq(|fields|, i requires 0 <= i < |fields| => Entry(fields[i]))
  }

  ghost predicate Ascending(fields: seq<Field>) {
    forall i | 0 < i < |fields| :: Precedes(fields[i - 1].key, fields[i].key)
  }

  lemma {:induction false} AscendingIsSorted(fields: seq<Field>)
    requires Ascending(fields)
    ensures Sorted(fields)
  {
    hide Compare, Precedes;
    if fields != [] {
      var front, last := fields[..|fields| - 1], fields[|fields| - 1];
      AscendingIsSorted(front);
      forall i | 0 <= i < |front|
        ensures Compare(fields[i].key, last.key) < 0
      {
        var previous := front[|front| - 1];
        CompareMeans(previous.key, last.key);
        if i < |front| - 1 {
          assert front[i] == fields[i];
          CompareIsTransitive(fields[i].key, previous.key, last.key);
        }
      }
      assert forall i, j | 0 <= i < j < |front| :: Compare(front[i].key, front[j].key) < 0;
    }
  }

  /** The text of an object, from its fields in key order, when no key needs escapes. */
  lemma RecordText(fields: seq<Field>, sorted: seq<Field>)
    requires DistinctKeys(fields) && multiset(sorted) == multiset(fields)
    requires Ascending(sorted) && forall i | 0 <= i < |sorted| :: IsPlain(sorted[i].key)
    ensures Canonicalize(Obj(fields)) == "{" + Join(Entries(sorted), ',') + "}"
  {
    AscendingIsSorted(sorted);
    SortIsDetermined(fields, sorted);
    SameMembers(sorted, fields);
    hide DistinctKeys, Ascending, Sorted, Precedes, Join, Sort;
    var texts := FieldTexts(Obj(fields), sorted);
    forall i | 0 <= i < |sorted|
      ensures texts[i] == Entries(sorted)[i]
    {
      PlainEscape(sorted[i].key);
    }
    assert texts == Entries(sorted);
    assert Canonicalize(Obj(fields)) == "{" + Join(FieldTexts(Obj(fields), Sort(fields)), ',') + "}";
  }

  lemma AscendingIsDistinct(fields: seq<Field>)
    requires Ascending(fields)
    ensures DistinctKeys(fields)
  {
    AscendingIsSorted(fields);
    SortedIsDistinct(fields);
  }

  lemma StringText(s: string)
    ensures Canonicalize(Str(s)) == EncodeString(s)
  {
  }

  lemma NumberText(n: int)
    ensures Canonicalize(Int(n)) == EncodeNumber(n)
  {
  }

  lemma EntryIs(key: string, value: Json, text: string)
    requires Canonicalize(value) == text
    ensures Entry(Field(key, value)) == Labelled(key, text)
  {
  }

  lemma StringEntry(key: string, s: string)
    ensures Entry(Field(key, Str(s))) == Labelled(key, EncodeString(s))
  {
    hide Canonicalize, EncodeString;
    StringText(s);
    EntryIs(key, Str(s), EncodeString(s));
  }

  lemma PrecedesByChar(a: string, b: string, i: nat)
    requires i < |a| && i < |b| && a[..i] == b[..i] && a[i] < b[i]
    ensures Precedes(a, b)
  {
    assert PrecedesAt(a, b, i);
  }

  /** Fields listed under the same distinct keys, at the same positions, hold the same values in objects that are the
      same. */
  lemma SameAt(a: seq<Field>, b: seq<Field>, i: nat)
    requires Same(Obj(a), Obj(b)) && i < |a| && i < |b| && a[i].key == b[i].key
    ensures Same(a[i].value, b[i].value)
  {
    assert a[i] in a && b[i] in b;
  }

  lemma SameTexts(a: seq<Field>, b: seq<Field>, i: nat)
    requires Same(Obj(a), Obj(b)) && i < |a| && i < |b| && a[i].key == b[i].key
    requires a[i].value.Str? && b[i].value.Str?
    ensures a[i].value == b[i].value
  {
    SameAt(a, b, i);
  }
}
