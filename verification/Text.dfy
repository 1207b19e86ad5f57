/** Joining with a one-character separator, and splitting back. */
module Text {

  function Join(parts: seq<string>, separator: char): string {
    if parts == [] then ""
    else if |parts| == 1 then parts[0]
    else parts[0] + [separator] + Join(parts[1..], separator)
  }

  /** Always at least one part; an empty text is one empty part. */
  function Split(text: string, separator: char): (parts: seq<string>)
    ensures |parts| >= 1
    ensures forall part | part in parts :: separator !in part
  {
    if text == "" then [""]
    else
      var rest := Split(text[1..], separator);
      if text[0] == separator then [""] + rest
      else [[text[0]] + rest[0]] + rest[1..]
  }

  lemma JoinGrows(parts: seq<string>, separator: char, c: char)
    requires parts != []
    ensures Join([[c] + parts[0]] + parts[1..], separator) == [c] + Join(parts, separator)
    ensures Join([""] + parts, separator) == [separator] + Join(parts, separator)
  {
    var grown, longer := [[c] + parts[0]] + parts[1..], [""] + parts;
    assert grown[1..] == parts[1..] && longer[1..] == parts;
  }

  lemma {:induction false} JoinInvertsSplit(text: string, separator: char)
    ensures Join(Split(text, separator), separator) == text
  {
    if text != "" {
      JoinInvertsSplit(text[1..], separator);
      JoinGrows(Split(text[1..], separator), separator, text[0]);
      hide Join;
      assert text == [text[0]] + text[1..];
    }
  }

  lemma {:induction false} SplitPart(part: string, separator: char)
    requires separator !in part
    ensures Split(part, separator) == [part]
  {
    if part != "" {
      SplitPart(part[1..], separator);
      assert part == [part[0]] + part[1..];
    }
  }

  lemma {:induction false} SplitFirst(part: string, rest: string, separator: char)
    requires separator !in part
    ensures Split(part + [separator] + rest, separator) == [part] + Split(rest, separator)
  {
    var text := part + [separator] + rest;
    if part == "" {
      assert text[1..] == rest;
    } else {
      SplitFirst(part[1..], rest, separator);
      assert text[1..] == part[1..] + [separator] + rest;
      assert part == [part[0]] + part[1..];
    }
  }

  /** Splitting recovers the joined parts exactly when none of them holds the separator. */
  lemma {:induction false} SplitInvertsJoin(parts: seq<string>, separator: char)
    requires parts != []
    ensures Split(Join(parts, separator), separator) == parts <==> forall part | part in parts :: separator !in part
  {
    if forall part | part in parts :: separator !in part {
      if |parts| == 1 {
        SplitPart(parts[0], separator);
      } else {
        SplitInvertsJoin(parts[1..], separator);
        SplitFirst(parts[0], Join(parts[1..], separator), separator);
      }
    }
  }

  lemma PrefixCancels(prefix: string, a: string, b: string)
    ensures prefix + a == prefix + b <==> a == b
  {
    assert (prefix + a)[|prefix|..] == a && (prefix + b)[|prefix|..] == b;
  }

  /** Appending at most one part. */
  lemma {:induction false} JoinAppends(parts: seq<string>, more: seq<string>, separator: char)
    requires parts != [] && |more| <= 1
    ensures Join(parts + more, separator) ==
      Join(parts, separator) + if more == [] then "" else [separator] + more[0]
  {
    if more == [] {
      assert parts + more == parts;
    } else if |parts| > 1 {
      JoinAppends(parts[1..], more, separator);
      assert (parts + more)[1..] == parts[1..] + more;
    } else {
      assert (parts + more)[1..] == more;
    }
  }
}
