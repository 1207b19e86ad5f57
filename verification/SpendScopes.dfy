/** The spend grammar `pay:<asset>[:tx<=<amount>][:total<=<amount>]`: printing, parsing and composing. */
module SpendScopes {
  import opened Wrappers
  import opened Text
  import opened Amounts

  const SPEND_PREFIX := "pay"
  const TX_CAP_PREFIX := "tx<="
  const TOTAL_CAP_PREFIX := "total<="

  predicate IsTokenChar(c: char) {
    'a' <= c <= 'z' || '0' <= c <= '9'
  }

  predicate IsSeparator(c: char) {
    c == '.' || c == '_' || c == '-'
  }

  /** Lower-case letters and digits, with single separators inside. */
  predicate IsAsset(text: string) {
    && text != ""
    && IsTokenChar(text[0]) && IsTokenChar(text[|text| - 1])
    && (forall i | 0 <= i < |text| :: IsTokenChar(text[i]) || IsSeparator(text[i]))
    && forall i | 0 < i < |text| :: IsTokenChar(text[i - 1]) || IsTokenChar(text[i])
  }

  predicate IsToken(text: string) {
    text != "" && forall i | 0 <= i < |text| :: IsTokenChar(text[i])
  }

  lemma {:induction false} LastSeparator(text: string) returns (k: int)
    requires forall i | 0 <= i < |text| :: IsTokenChar(text[i]) || IsSeparator(text[i])
    ensures -1 <= k < |text|
    ensures k >= 0 ==> IsSeparator(text[k])
    ensures forall i | k < i < |text| :: IsTokenChar(text[i])
  {
    var n := |text| - 1;
    if text == "" || IsSeparator(text[n]) {
      k := n;
    } else {
      k := LastSeparator(text[..n]);
    }
  }

  lemma AssetSplits(text: string, k: int)
    requires IsAsset(text) && 0 <= k < |text| && IsSeparator(text[k])
    requires forall i | k < i < |text| :: IsTokenChar(text[i])
    ensures k > 0 && IsAsset(text[..k]) && IsToken(text[k + 1..])
  {
    var n := |text|;
    assert k > 0 && k < n - 1;
    var front := text[..k];
    assert IsTokenChar(text[k - 1]);
    assert front[0] == text[0] && front[|front| - 1] == text[k - 1];
    forall i | 0 <= i < |front|
      ensures IsTokenChar(front[i]) || IsSeparator(front[i])
    {
      assert front[i] == text[i];
    }
    forall i | 0 < i < |front|
      ensures IsTokenChar(front[i - 1]) || IsTokenChar(front[i])
    {
      assert front[i] == text[i] && front[i - 1] == text[i - 1];
    }
  }

  lemma AssetJoins(front: string, c: char, token: string)
    requires IsAsset(front) && IsSeparator(c) && IsToken(token)
    ensures IsAsset(front + [c] + token)
  {
    var text, k := front + [c] + token, |front|;
    hide IsTokenChar, IsSeparator;
    assert text[0] == front[0] && text[|text| - 1] == token[|token| - 1];
    forall i | 0 <= i < |text|
      ensures IsTokenChar(text[i]) || IsSeparator(text[i])
    {
      assert text[i] == if i < k then front[i] else if i == k then c else token[i - k - 1];
    }
    forall i | 0 < i < |text|
      ensures IsTokenChar(text[i - 1]) || IsTokenChar(text[i])
    {
      if i < k {
        assert text[i] == front[i] && text[i - 1] == front[i - 1];
      } else if i == k {
        assert text[i - 1] == front[k - 1];
      } else {
        assert text[i] == token[i - k - 1];
      }
    }
  }

  lemma TokenIsAsset(text: string)
    requires IsToken(text)
    ensures IsAsset(text)
  {
    hide IsTokenChar, IsSeparator;
  }

  lemma AssetIsOver(text: string)
    requires IsAsset(text)
    ensures text != "" && forall i | 0 <= i < |text| :: IsTokenChar(text[i]) || IsSeparator(text[i])
  {
    hide IsTokenChar, IsSeparator;
  }

  lemma AllTokenChars(text: string)
    requires text != "" && forall i | 0 <= i < |text| :: IsTokenChar(text[i])
    ensures IsToken(text)
  {
  }

  /** The asset tokens are the expression's: one token, or an asset, a separator and one more token. */
  lemma AssetGrammar(text: string)
    ensures IsAsset(text) <==>
      IsToken(text) || exists k | 0 < k < |text| :: IsAsset(text[..k]) && IsSeparator(text[k]) && IsToken(text[k + 1..])
  {
    hide IsTokenChar, IsSeparator, IsAsset, IsToken;
    if IsAsset(text) {
      AssetIsOver(text);
      var k := LastSeparator(text);
      if k >= 0 {
        AssetSplits(text, k);
      } else {
        AllTokenChars(text);
      }
    }
    if IsToken(text) {
      TokenIsAsset(text);
    }
    if k :| 0 < k < |text| && IsAsset(text[..k]) && IsSeparator(text[k]) && IsToken(text[k + 1..]) {
      assert text == text[..k] + [text[k]] + text[k + 1..];
      AssetJoins(text[..k], text[k], text[k + 1..]);
    }
  }

  /** An absent cap is unlimited. */
  datatype SpendScope = SpendScope(asset: string, txCap: Option<Amount>, totalCap: Option<Amount>)

  predicate StartsWith(text: string, prefix: string) {
    |prefix| <= |text| && text[..|prefix|] == prefix
  }

  predicate IsSpendScope(scope: string) {
    Split(scope, ':')[0] == SPEND_PREFIX
  }

  function Segment(prefix: string, cap: Option<Amount>): seq<string> {
    match cap
    case None => []
    case Some(amount) => [prefix + amount]
  }

  function TxSegment(scope: SpendScope): seq<string> {
    Segment(TX_CAP_PREFIX, scope.txCap)
  }

  function TotalSegment(scope: SpendScope): seq<string> {
    Segment(TOTAL_CAP_PREFIX, scope.totalCap)
  }

  function Parts(scope: SpendScope): seq<string> {
    [SPEND_PREFIX, scope.asset] + TxSegment(scope) + TotalSegment(scope)
  }

  /** The scope string an authority spells as. */
  function Render(scope: SpendScope): string {
    Join(Parts(scope), ':')
  }

  // ----- the grammar -----

  /** The segments after the asset list the scope's caps, in either order. */
  ghost predicate ListsCaps(segments: seq<string>, scope: SpendScope) {
    segments == TxSegment(scope) + TotalSegment(scope) || segments == TotalSegment(scope) + TxSegment(scope)
  }

  /** The grammar: the text spells this scope. */
  ghost predicate Spells(text: string, scope: SpendScope) {
    var segments := Split(text, ':');
    && IsAsset(scope.asset)
    && |segments| >= 2 && segments[0] == SPEND_PREFIX && segments[1] == scope.asset
    && ListsCaps(segments[2..], scope)
  }

  ghost function Parse(text: string): (parsed: Option<SpendScope>)
    ensures parsed.Some? ==> Spells(text, parsed.value)
    ensures parsed.None? ==> forall scope :: !Spells(text, scope)
  {
    if exists scope :: Spells(text, scope) then
      var scope :| Spells(text, scope);
      Some(scope)
    else None
  }

  lemma PrefixesDiffer(segment: string)
    ensures !(IsTx(segment) && IsTotal(segment))
  {
    assert IsTx(segment) ==> segment[1] == segment[..4][1] == 'x';
    assert IsTotal(segment) ==> segment[1] == segment[..7][1] == 'o';
  }

  lemma PrefixStarts(prefix: string, rest: string)
    ensures StartsWith(prefix + rest, prefix) && (prefix + rest)[|prefix|..] == rest
  {
  }

  predicate IsTx(segment: string) {
    StartsWith(segment, TX_CAP_PREFIX)
  }

  predicate IsTotal(segment: string) {
    StartsWith(segment, TOTAL_CAP_PREFIX)
  }

  predicate IsCap(segment: string) {
    || (IsTx(segment) && ParseAmount(segment[|TX_CAP_PREFIX|..]).Some?)
    || (IsTotal(segment) && ParseAmount(segment[|TOTAL_CAP_PREFIX|..]).Some?)
  }

  lemma CapText(segment: string)
    ensures IsTx(segment) ==>
      |segment| >= |TX_CAP_PREFIX| && (IsCap(segment) <==> ParseAmount(segment[|TX_CAP_PREFIX|..]).Some?)
    ensures IsTotal(segment) ==>
      |segment| >= |TOTAL_CAP_PREFIX| && (IsCap(segment) <==> ParseAmount(segment[|TOTAL_CAP_PREFIX|..]).Some?)
    ensures IsCap(segment) ==> IsTx(segment) != IsTotal(segment)
  {
    hide IsDecimal;
    PrefixesDiffer(segment);
  }

  /** One segment read on top of the caps read so far. */
  ghost predicate Reads(before: SpendScope, segment: string, after: SpendScope) {
    || (&& IsTx(segment) && before.txCap.None? && after.txCap.Some?
        && segment == TX_CAP_PREFIX + after.txCap.value
        && after == before.(txCap := after.txCap))
    || (&& IsTotal(segment) && before.totalCap.None? && after.totalCap.Some?
        && segment == TOTAL_CAP_PREFIX + after.totalCap.value
        && after == before.(totalCap := after.totalCap))
  }

  lemma ReadNext(segments: seq<string>, before: SpendScope, segment: string, after: SpendScope)
    requires ListsCaps(segments, before) && Reads(before, segment, after)
    ensures ListsCaps(segments + [segment], after)
  {
    hide IsTx, IsTotal;
  }

  /** Each kind of cap at most once. */
  ghost predicate OneOfEach(segments: seq<string>) {
    forall i, j | 0 <= i < j < |segments| ::
      IsTx(segments[i]) != IsTx(segments[j]) && IsTotal(segments[i]) != IsTotal(segments[j])
  }

  /** Listed caps are cap segments, each kind at most once, and the segments determine the caps. */
  lemma CapsListed(segments: seq<string>, scope: SpendScope)
    requires ListsCaps(segments, scope)
    ensures forall i | 0 <= i < |segments| :: IsCap(segments[i]) && IsTx(segments[i]) != IsTotal(segments[i])
    ensures OneOfEach(segments)
    ensures forall i | 0 <= i < |segments| && IsTx(segments[i]) ::
      scope.txCap.Some? && segments[i] == TX_CAP_PREFIX + scope.txCap.value
    ensures forall i | 0 <= i < |segments| && IsTotal(segments[i]) ::
      scope.totalCap.Some? && segments[i] == TOTAL_CAP_PREFIX + scope.totalCap.value
    ensures scope.txCap.Some? ==>
      TX_CAP_PREFIX + scope.txCap.value in segments && IsTx(TX_CAP_PREFIX + scope.txCap.value)
    ensures scope.totalCap.Some? ==>
      TOTAL_CAP_PREFIX + scope.totalCap.value in segments && IsTotal(TOTAL_CAP_PREFIX + scope.totalCap.value)
  {
    var tx, total := TxSegment(scope), TotalSegment(scope);
    if scope.txCap.Some? {
      PrefixStarts(TX_CAP_PREFIX, scope.txCap.value);
      PrefixesDiffer(tx[0]);
      assert tx[0] in segments;
    }
    if scope.totalCap.Some? {
      PrefixStarts(TOTAL_CAP_PREFIX, scope.totalCap.value);
      PrefixesDiffer(total[0]);
      assert total[0] in segments;
    }
    hide IsDecimal;
    assert scope.txCap.Some? ==> IsTx(tx[0]) && IsCap(tx[0]) && !IsTotal(tx[0]);
    assert scope.totalCap.Some? ==> IsTotal(total[0]) && IsCap(total[0]) && !IsTx(total[0]);
    hide IsTx, IsTotal, IsCap;
  }

  lemma CapsDetermined(segments: seq<string>, a: SpendScope, b: SpendScope)
    requires ListsCaps(segments, a) && ListsCaps(segments, b)
    ensures a.txCap == b.txCap && a.totalCap == b.totalCap
  {
    CapsListed(segments, a);
    CapsListed(segments, b);
    hide IsTx, IsTotal, IsCap, ListsCaps, IsDecimal, OneOfEach;
    if a.txCap.Some? {
      PrefixCancels(TX_CAP_PREFIX, a.txCap.value, b.txCap.value);
    }
    if a.totalCap.Some? {
      PrefixCancels(TOTAL_CAP_PREFIX, a.totalCap.value, b.totalCap.value);
    }
  }

  /** A text spells at most one scope. */
  lemma SpellsOne(text: string, scope: SpendScope)
    requires Spells(text, scope)
    ensures Parse(text) == Some(scope)
  {
    hide ListsCaps, IsAsset, Split;
    CapsDetermined(Split(text, ':')[2..], Parse(text).value, scope);
  }

  lemma Unreadable(segments: seq<string>, k: nat, before: SpendScope)
    requires k < |segments| && ListsCaps(segments[..k], before)
    requires
      || !IsCap(segments[k])
      || (IsTx(segments[k]) && before.txCap.Some?)
      || (IsTotal(segments[k]) && before.totalCap.Some?)
    ensures forall scope :: !ListsCaps(segments, scope)
  {
    CapsListed(segments[..k], before);
    hide IsTx, IsTotal, IsCap, ListsCaps, IsDecimal;
    if IsCap(segments[k]) {
      var cap := if IsTx(segments[k]) && before.txCap.Some? then TX_CAP_PREFIX + before.txCap.value
                 else TOTAL_CAP_PREFIX + before.totalCap.value;
      var earlier :| 0 <= earlier < k && segments[..k][earlier] == cap;
      assert segments[earlier] == cap;
    }
    forall scope | ListsCaps(segments, scope)
      ensures false
    {
      CapsListed(segments, scope);
    }
  }

  lemma ReadCap(before: SpendScope, segment: string, rest: Amount, after: SpendScope)
    requires IsTx(segment) ==>
      before.txCap.None? && rest == segment[|TX_CAP_PREFIX|..] && after == before.(txCap := Some(rest))
    requires !IsTx(segment) ==>
      && IsTotal(segment) && before.totalCap.None?
      && rest == segment[|TOTAL_CAP_PREFIX|..] && after == before.(totalCap := Some(rest))
    ensures Reads(before, segment, after)
  {
    hide IsDecimal;
    assert IsTx(segment) ==> segment == segment[..|TX_CAP_PREFIX|] + segment[|TX_CAP_PREFIX|..];
    assert IsTotal(segment) ==> segment == segment[..|TOTAL_CAP_PREFIX|] + segment[|TOTAL_CAP_PREFIX|..];
  }

  /** Accepts exactly the grammar, and returns the scope the text spells. */
  method ParseSpendScope(text: string) returns (parsed: Option<SpendScope>)
    ensures parsed == Parse(text)
  {
    hide IsDecimal, Parse, ListsCaps, IsTx, IsTotal, IsCap, Reads;
    if !IsSpendScope(text) {
      return None;
    }
    var segments := Split(text, ':');
    if |segments| < 2 || segments[1] == "" {
      return None;
    }
    var asset := segments[1];
    if !IsAsset(asset) {
      return None;
    }
    hide IsAsset, Split;
    var txCap: Option<Amount> := None;
    var totalCap: Option<Amount> := None;
    var rest := segments[2..];
    NoCaps(asset);
    assert rest[..0] == [];
    for i := 0 to |rest|
      invariant ListsCaps(rest[..i], SpendScope(asset, txCap, totalCap))
    {
      var segment := rest[i];
      ghost var before := SpendScope(asset, txCap, totalCap);
      assert rest[..i + 1] == rest[..i] + [segment];
      CapText(segment);
      if IsTx(segment) {
        if txCap.Some? {
          Unreadable(rest, i, before);
          return None;
        }
        txCap := ParseAmount(segment[|TX_CAP_PREFIX|..]);
        if txCap.None? {
          Unreadable(rest, i, before);
          return None;
        }
        ReadCap(before, segment, txCap.value, SpendScope(asset, txCap, totalCap));
      } else if IsTotal(segment) {
        if totalCap.Some? {
          Unreadable(rest, i, before);
          return None;
        }
        totalCap := ParseAmount(segment[|TOTAL_CAP_PREFIX|..]);
        if totalCap.None? {
          Unreadable(rest, i, before);
          return None;
        }
        ReadCap(before, segment, totalCap.value, SpendScope(asset, txCap, totalCap));
      } else {
        Unreadable(rest, i, before);
        return None;
      }
      ReadNext(rest[..i], before, segment, SpendScope(asset, txCap, totalCap));
    }
    assert rest[..|rest|] == rest;
    SpellsOne(text, SpendScope(asset, txCap, totalCap));
    return Some(SpendScope(asset, txCap, totalCap));
  }

  lemma NoCaps(asset: string)
    ensures ListsCaps([], SpendScope(asset, None, None))
  {
  }

  // ----- round trips -----

  lemma AmountHasNoColon(amount: Amount)
    ensures ':' !in amount
  {
    PartsSpell(amount);
    hide IsDecimal, Split;
  }

  lemma AssetHasNoColon(asset: string)
    requires IsAsset(asset)
    ensures ':' !in asset
  {
  }

  lemma SegmentHasNoColon(prefix: string, cap: Option<Amount>)
    requires ':' !in prefix
    ensures forall part | part in Segment(prefix, cap) :: ':' !in part
  {
    hide IsDecimal;
    if cap.Some? {
      AmountHasNoColon(cap.value);
      forall part | part in Segment(prefix, cap)
        ensures ':' !in part
      {
        assert part == prefix + cap.value;
      }
    }
  }

  lemma RenderedParts(scope: SpendScope)
    requires IsAsset(scope.asset)
    ensures Split(Render(scope), ':') == Parts(scope)
  {
    hide Split, Join, Segment;
    AssetHasNoColon(scope.asset);
    hide IsAsset;
    SegmentHasNoColon(TX_CAP_PREFIX, scope.txCap);
    SegmentHasNoColon(TOTAL_CAP_PREFIX, scope.totalCap);
    forall part | part in Parts(scope)
      ensures ':' !in part
    {
      assert part == SPEND_PREFIX || part == scope.asset || part in TxSegment(scope) || part in TotalSegment(scope);
    }
    SplitInvertsJoin(Parts(scope), ':');
  }

  /** Parsing inverts printing, spelling preserved, exactly for the scopes whose asset is a token. */
  lemma ParseInvertsRender(scope: SpendScope)
    ensures Parse(Render(scope)) == Some(scope) <==> IsAsset(scope.asset)
  {
    hide Split, Join, Segment, IsAsset;
    if IsAsset(scope.asset) {
      RenderedParts(scope);
      var segments := Parts(scope);
      assert segments[2..] == TxSegment(scope) + TotalSegment(scope);
      assert Spells(Render(scope), scope);
      SpellsOne(Render(scope), scope);
    }
  }

  /** Every cap on a transaction is listed before any cap on the total. */
  predicate TxFirst(text: string) {
    var segments := Split(text, ':');
    forall i, j | 2 <= i < j < |segments| :: !(IsTotal(segments[i]) && IsTx(segments[j]))
  }

  lemma TxFirstOf(segments: seq<string>, scope: SpendScope)
    requires ListsCaps(segments, scope)
    ensures segments == TxSegment(scope) + TotalSegment(scope) <==>
      forall i, j | 0 <= i < j < |segments| :: !(IsTotal(segments[i]) && IsTx(segments[j]))
  {
    CapsListed(segments, scope);
    hide IsTx, IsTotal, IsCap, OneOfEach;
    if segments != TxSegment(scope) + TotalSegment(scope) {
      assert scope.txCap.Some? && scope.totalCap.Some?;
      assert segments == [TOTAL_CAP_PREFIX + scope.totalCap.value, TX_CAP_PREFIX + scope.txCap.value];
      assert IsTotal(segments[0]) && IsTx(segments[1]);
    }
  }

  lemma TxFirstShifts(segments: seq<string>, caps: seq<string>)
    requires |segments| >= 2 && caps == segments[2..]
    ensures (forall i, j | 2 <= i < j < |segments| :: !(IsTotal(segments[i]) && IsTx(segments[j]))) <==>
      forall i, j | 0 <= i < j < |caps| :: !(IsTotal(caps[i]) && IsTx(caps[j]))
  {
    hide IsTx, IsTotal;
    assert forall i | 0 <= i < |caps| :: caps[i] == segments[i + 2];
    assert forall i | 2 <= i < |segments| :: segments[i] == caps[i - 2];
  }

  /** Printing inverts parsing exactly on the texts that list the transaction cap first. */
  lemma RenderInvertsParse(text: string)
    requires Parse(text).Some?
    ensures Render(Parse(text).value) == text <==> TxFirst(text)
  {
    hide Split, Join, Segment, IsAsset, IsTx, IsTotal, Parse;
    var scope := Parse(text).value;
    var segments := Split(text, ':');
    var caps := segments[2..];
    TxFirstOf(caps, scope);
    TxFirstShifts(segments, caps);
    RenderedParts(scope);
    hide ListsCaps, TxSegment, TotalSegment;
    assert segments == [SPEND_PREFIX, scope.asset] + caps;
    if Render(scope) == text {
      assert caps == Parts(scope)[2..] == TxSegment(scope) + TotalSegment(scope);
    } else if caps == TxSegment(scope) + TotalSegment(scope) {
      assert segments == Parts(scope);
      JoinInvertsSplit(text, ':');
    }
  }

  lemma ReadOne(before: SpendScope, segments: seq<string>, segment: string) returns (after: SpendScope)
    requires ListsCaps(segments, before) && IsCap(segment)
    requires IsTx(segment) ==> before.txCap.None?
    requires IsTotal(segment) ==> before.totalCap.None?
    ensures ListsCaps(segments + [segment], after) && after.asset == before.asset
  {
    hide IsDecimal, ListsCaps, Reads;
    CapText(segment);
    if IsTx(segment) {
      after := before.(txCap := ParseAmount(segment[|TX_CAP_PREFIX|..]));
      ReadCap(before, segment, after.txCap.value, after);
    } else {
      after := before.(totalCap := ParseAmount(segment[|TOTAL_CAP_PREFIX|..]));
      ReadCap(before, segment, after.totalCap.value, after);
    }
    ReadNext(segments, before, segment, after);
  }

  lemma ThreeRepeat(segments: seq<string>)
    requires |segments| > 2
    ensures !OneOfEach(segments)
  {
    hide IsTx, IsTotal;
    var a, b, c := IsTx(segments[0]), IsTx(segments[1]), IsTx(segments[2]);
    assert a == b || b == c || a == c;
  }

  lemma Listable(segments: seq<string>, asset: string)
    requires OneOfEach(segments)
    requires forall i | 0 <= i < |segments| :: IsCap(segments[i])
    ensures exists scope: SpendScope :: scope.asset == asset && ListsCaps(segments, scope)
  {
    hide IsDecimal, IsTx, IsTotal, IsCap, ListsCaps;
    forall i | 0 <= i < |segments|
      ensures IsTx(segments[i]) != IsTotal(segments[i])
    {
      CapText(segments[i]);
    }
    NoCaps(asset);
    if |segments| >= 1 {
      var one := ReadOne(SpendScope(asset, None, None), [], segments[0]);
      assert segments[..1] == [] + [segments[0]];
      if |segments| >= 2 {
        CapsListed(segments[..1], one);
        assert segments[..1][0] == segments[0];
        var two := ReadOne(one, segments[..1], segments[1]);
        assert segments[..2] == segments[..1] + [segments[1]];
        if |segments| > 2 {
          ThreeRepeat(segments);
        }
        assert segments == segments[..2];
      } else {
        assert segments == segments[..1];
      }
    }
  }

  /** The parser accepts exactly the asset token followed by at most one cap of each kind, in either order. */
  lemma ParseAccepts(text: string)
    ensures
      var segments := Split(text, ':');
      Parse(text).Some? <==>
        && IsSpendScope(text)
        && |segments| >= 2 && IsAsset(segments[1])
        && (forall i | 2 <= i < |segments| :: IsCap(segments[i]))
        && OneOfEach(segments[2..])
  {
    hide Split, IsAsset, IsTx, IsTotal, IsCap, Parse, IsDecimal;
    var segments := Split(text, ':');
    if Parse(text).Some? {
      CapsListed(segments[2..], Parse(text).value);
      forall i | 2 <= i < |segments|
        ensures IsCap(segments[i])
      {
        assert segments[i] == segments[2..][i - 2];
      }
    }
    if
      && IsSpendScope(text) && |segments| >= 2 && IsAsset(segments[1])
      && (forall i | 2 <= i < |segments| :: IsCap(segments[i]))
      && OneOfEach(segments[2..])
    {
      Listable(segments[2..], segments[1]);
      hide ListsCaps, OneOfEach;
      var scope: SpendScope :| scope.asset == segments[1] && ListsCaps(segments[2..], scope);
      SpellsOne(text, scope);
    }
  }

  function Suffix(prefix: string, cap: Option<Amount>): string {
    match cap
    case None => ""
    case Some(amount) => prefix + amount
  }

  lemma JoinPieces(asset: string, tx: seq<string>, total: seq<string>)
    requires |tx| <= 1 && |total| <= 1
    ensures Join(["pay", asset] + tx + total, ':') ==
      "pay:" + asset + (if tx == [] then "" else ":" + tx[0]) + (if total == [] then "" else ":" + total[0])
  {
    assert Join(["pay"], ':') == "pay";
    hide Join;
    JoinAppends(["pay"], [asset], ':');
    assert ["pay"] + [asset] == ["pay", asset];
    JoinAppends(["pay", asset], tx, ':');
    JoinAppends(["pay", asset] + tx, total, ':');
    assert "pay" + [':'] == "pay:" && [':'] == ":";
  }

  lemma SuffixIs(prefix: string, spelled: string, cap: Option<Amount>)
    requires ":" + prefix == spelled
    ensures |Segment(prefix, cap)| <= 1
    ensures Suffix(spelled, cap) == if Segment(prefix, cap) == [] then "" else ":" + Segment(prefix, cap)[0]
  {
    hide IsDecimal;
    if cap.Some? {
      assert ":" + (prefix + cap.value) == (":" + prefix) + cap.value;
    }
  }

  /** The printed form: the asset after `pay:`, then each cap that is set, the transaction cap first. */
  lemma RenderedText(scope: SpendScope)
    ensures Render(scope) == "pay:" + scope.asset + Suffix(":tx<=", scope.txCap) + Suffix(":total<=", scope.totalCap)
  {
    SuffixIs(TX_CAP_PREFIX, ":tx<=", scope.txCap);
    SuffixIs(TOTAL_CAP_PREFIX, ":total<=", scope.totalCap);
    hide IsDecimal, Join, Segment, Suffix;
    JoinPieces(scope.asset, TxSegment(scope), TotalSegment(scope));
  }

  /** The characters of an asset are those of the expression, by code point. */
  lemma AssetCharacters(c: char)
    ensures IsTokenChar(c) <==> 97 <= c as int <= 122 || 48 <= c as int <= 57
    ensures IsSeparator(c) <==> c as int == 45 || c as int == 46 || c as int == 95
  {
  }

  /** A scope is in the grammar's name exactly when it is `pay`, or `pay` and a colon begin it. */
  lemma SpendScopesStart(scope: string)
    ensures IsSpendScope(scope) <==> scope == "pay" || "pay:" <= scope
  {
    SplitPart("pay", ':');
    if "pay:" <= scope {
      var rest := scope[4..];
      assert scope == "pay" + [':'] + rest;
      SplitFirst("pay", rest, ':');
    }
    if IsSpendScope(scope) {
      JoinInvertsSplit(scope, ':');
      var parts := Split(scope, ':');
      hide Split;
      if |parts| > 1 {
        assert scope == "pay" + [':'] + Join(parts[1..], ':');
      }
    }
  }
}
