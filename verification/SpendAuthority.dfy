/** Composing spend scopes down a chain, and approving payments against the result. */
module SpendAuthority {
  import opened Wrappers
  import opened Amounts
  import opened SpendScopes

  // ----- caps -----

  function MinCap(a: Option<Amount>, b: Option<Amount>): Option<Amount> {
    if a.None? then b
    else if b.None? then a
    else Some(Min(a.value, b.value))
  }

  /** Grants over different assets do not compose. */
  function Intersect(a: SpendScope, b: SpendScope): Option<SpendScope> {
    if a.asset != b.asset then None
    else Some(SpendScope(a.asset, MinCap(a.txCap, b.txCap), MinCap(a.totalCap, b.totalCap)))
  }

  ghost predicate Below(amount: Amount, cap: Option<Amount>) {
    cap.Some? ==> ValueOf(amount) <= ValueOf(cap.value)
  }

  ghost predicate StrictlyBelow(amount: Amount, cap: Option<Amount>) {
    cap.Some? ==> ValueOf(amount) < ValueOf(cap.value)
  }

  /** The k-th cap is the least, and the first of the equal ones, so that its spelling is the one kept. */
  ghost predicate LeastAt(caps: seq<Option<Amount>>, k: int) {
    && 0 <= k < |caps| && caps[k].Some?
    && (forall j | 0 <= j < |caps| :: Below(caps[k].value, caps[j]))
    && forall j | 0 <= j < k :: StrictlyBelow(caps[k].value, caps[j])
  }

  /** No cap at all, or the least one. */
  ghost predicate Tightest(caps: seq<Option<Amount>>, cap: Option<Amount>) {
    if cap.None? then forall j | 0 <= j < |caps| :: caps[j].None?
    else exists k :: LeastAt(caps, k) && caps[k] == cap
  }

  lemma TightestOne(cap: Option<Amount>)
    ensures Tightest([cap], cap)
  {
    hide IsDecimal, ValueOf;
    if cap.Some? {
      assert LeastAt([cap], 0);
    }
  }

  /** Every cap is at least the tightest one. */
  lemma TightestBounds(caps: seq<Option<Amount>>, cap: Option<Amount>)
    requires Tightest(caps, cap)
    ensures forall j | 0 <= j < |caps| && caps[j].Some? :: cap.Some? && ValueOf(cap.value) <= ValueOf(caps[j].value)
    ensures cap.Some? ==> exists k :: 0 <= k < |caps| && caps[k] == cap
  {
    hide IsDecimal, ValueOf;
    if cap.Some? {
      var k :| LeastAt(caps, k) && caps[k] == cap;
    }
  }

  lemma TightestJoin(a: seq<Option<Amount>>, p: Option<Amount>, b: seq<Option<Amount>>, q: Option<Amount>)
    requires Tightest(a, p) && Tightest(b, q)
    ensures Tightest(a + b, MinCap(p, q))
  {
    hide IsDecimal, ValueOf, Min;
    var both := a + b;
    TightestBounds(a, p);
    TightestBounds(b, q);
    assert forall j | 0 <= j < |both| :: both[j] == if j < |a| then a[j] else b[j - |a|];
    if p.Some? && q.Some? {
      MinIsLeast(p.value, q.value);
    }
    if p.Some? && (q.None? || ValueOf(p.value) <= ValueOf(q.value)) {
      var k :| LeastAt(a, k) && a[k] == p;
      assert LeastAt(both, k);
    } else if q.Some? {
      var k :| LeastAt(b, k) && b[k] == q;
      assert both[|a| + k] == q;
      assert LeastAt(both, |a| + k);
    }
  }

  /** What the tightest cap allows is what every cap allows. */
  lemma TightestAllows(caps: seq<Option<Amount>>, cap: Option<Amount>, x: real)
    requires Tightest(caps, cap)
    ensures (cap.Some? ==> x <= ValueOf(cap.value)) <==>
      forall j | 0 <= j < |caps| && caps[j].Some? :: x <= ValueOf(caps[j].value)
    ensures cap.Some? <==> exists j :: 0 <= j < |caps| && caps[j].Some?
  {
    hide IsDecimal, ValueOf, Tightest;
    TightestBounds(caps, cap);
  }

  // ----- grants -----

  function TxCaps(grants: seq<SpendScope>): (caps: seq<Option<Amount>>)
    ensures |caps| == |grants|
  {
    seq(|grants|, i requires 0 <= i < |grants| => grants[i].txCap)
  }

  function TotalCaps(grants: seq<SpendScope>): (caps: seq<Option<Amount>>)
    ensures |caps| == |grants|
  {
    seq(|grants|, i requires 0 <= i < |grants| => grants[i].totalCap)
  }

  /** The composition of grants over one asset: on each axis the least of their caps. */
  ghost predicate IsMeet(grants: seq<SpendScope>, scope: SpendScope) {
    && grants != []
    && (forall g | g in grants :: g.asset == scope.asset)
    && Tightest(TxCaps(grants), scope.txCap)
    && Tightest(TotalCaps(grants), scope.totalCap)
  }

  lemma MeetOne(scope: SpendScope)
    ensures IsMeet([scope], scope)
  {
    hide IsDecimal, Tightest;
    TightestOne(scope.txCap);
    TightestOne(scope.totalCap);
    assert TxCaps([scope]) == [scope.txCap] && TotalCaps([scope]) == [scope.totalCap];
  }

  /** Composing two compositions is composing all their grants. */
  lemma MeetJoin(a: seq<SpendScope>, p: SpendScope, b: seq<SpendScope>, q: SpendScope)
    requires IsMeet(a, p) && IsMeet(b, q) && p.asset == q.asset
    ensures Intersect(p, q).Some? && IsMeet(a + b, Intersect(p, q).value)
  {
    hide IsDecimal, Tightest, MinCap;
    TightestJoin(TxCaps(a), p.txCap, TxCaps(b), q.txCap);
    TightestJoin(TotalCaps(a), p.totalCap, TotalCaps(b), q.totalCap);
    assert TxCaps(a + b) == TxCaps(a) + TxCaps(b);
    assert TotalCaps(a + b) == TotalCaps(a) + TotalCaps(b);
    forall g | g in a + b
      ensures g.asset == p.asset
    {
      assert g in a || g in b;
    }
  }

  lemma TightestIsUnique(caps: seq<Option<Amount>>, a: Option<Amount>, b: Option<Amount>)
    requires Tightest(caps, a) && Tightest(caps, b)
    ensures a == b
  {
    hide IsDecimal, ValueOf;
    if a.Some? && b.Some? {
      var j :| LeastAt(caps, j) && caps[j] == a;
      var k :| LeastAt(caps, k) && caps[k] == b;
      assert j == k;
    }
  }

  /** The grants determine their composition, down to the spelling of its caps. */
  lemma MeetIsUnique(grants: seq<SpendScope>, a: SpendScope, b: SpendScope)
    requires IsMeet(grants, a) && IsMeet(grants, b)
    ensures a == b
  {
    hide IsDecimal, Tightest, TxCaps, TotalCaps;
    TightestIsUnique(TxCaps(grants), a.txCap, b.txCap);
    TightestIsUnique(TotalCaps(grants), a.totalCap, b.totalCap);
    assert grants[0] in grants;
  }

  /** Every scope in the spend grammar's name parses. */
  ghost predicate Readable(scopes: seq<string>) {
    forall i | 0 <= i < |scopes| :: IsSpendScope(scopes[i]) ==> Parse(scopes[i]).Some?
  }

  /** The authority over the asset that the scopes spell, in order. */
  ghost function GrantsIn(scopes: seq<string>, asset: string): seq<SpendScope> {
    if scopes == [] then []
    else
      var front, last := GrantsIn(scopes[..|scopes| - 1], asset), Parse(scopes[|scopes| - 1]);
      if last.Some? && last.value.asset == asset then front + [last.value] else front
  }

  lemma {:induction false} GrantsAre(scopes: seq<string>, asset: string, g: SpendScope)
    ensures g in GrantsIn(scopes, asset) <==>
      g.asset == asset && exists i :: 0 <= i < |scopes| && Parse(scopes[i]) == Some(g)
  {
    hide Parse, IsDecimal;
    if scopes != [] {
      var front := scopes[..|scopes| - 1];
      GrantsAre(front, asset, g);
      assert forall i | 0 <= i < |front| :: front[i] == scopes[i];
    }
  }

  /** One grant's authority over the asset: None is a raised error, and Some(None) no authority. */
  method SpendAuthorityFor(scopes: seq<string>, asset: string) returns (authority: Option<Option<SpendScope>>)
    ensures authority.None? <==> !Readable(scopes)
    ensures authority == Some(None) ==> GrantsIn(scopes, asset) == []
    ensures authority.Some? && authority.value.Some? ==>
      authority.value.value.asset == asset && IsMeet(GrantsIn(scopes, asset), authority.value.value)
  {
    hide IsDecimal, Parse, IsMeet, Intersect, IsSpendScope, GrantsIn;
    NoGrantsIn(asset);
    assert scopes[..0] == [];
    var held: Option<SpendScope> := None;
    for i := 0 to |scopes|
      invariant Readable(scopes[..i])
      invariant held.None? ==> GrantsIn(scopes[..i], asset) == []
      invariant held.Some? ==> held.value.asset == asset && IsMeet(GrantsIn(scopes[..i], asset), held.value)
    {
      var scope := scopes[i];
      GrantsNext(scopes, i, asset);
      if !IsSpendScope(scope) {
        NotSpend(scope);
        continue;
      }
      var parsed := ParseSpendScope(scope);
      if parsed.None? {
        return None;
      }
      if parsed.value.asset != asset {
        continue;
      }
      MeetNext(GrantsIn(scopes[..i], asset), held, parsed.value);
      held := if held.None? then parsed else Intersect(held.value, parsed.value);
    }
    assert scopes[..|scopes|] == scopes;
    return Some(held);
  }

  lemma MeetNext(grants: seq<SpendScope>, held: Option<SpendScope>, next: SpendScope)
    requires held.None? ==> grants == []
    requires held.Some? ==> held.value.asset == next.asset && IsMeet(grants, held.value)
    ensures held.None? ==> IsMeet(grants + [next], next)
    ensures held.Some? ==>
      && Intersect(held.value, next).Some? && Intersect(held.value, next).value.asset == next.asset
      && IsMeet(grants + [next], Intersect(held.value, next).value)
  {
    hide IsDecimal, IsMeet, MinCap;
    MeetOne(next);
    if held.None? {
      assert grants + [next] == [next];
    } else {
      MeetJoin(grants, held.value, [next], next);
    }
  }

  lemma NoGrantsIn(asset: string)
    ensures GrantsIn([], asset) == []
  {
  }

  lemma NotSpend(scope: string)
    ensures Parse(scope).Some? ==> IsSpendScope(scope)
  {
  }

  lemma GrantsNext(scopes: seq<string>, i: nat, asset: string)
    requires i < |scopes|
    ensures
      var front, last := GrantsIn(scopes[..i], asset), Parse(scopes[i]);
      GrantsIn(scopes[..i + 1], asset) ==
        if last.Some? && last.value.asset == asset then front + [last.value] else front
  {
    hide Parse, IsDecimal;
    assert scopes[..i + 1][..i] == scopes[..i];
  }

  // ----- chains -----

  /** The link's scopes all parse, and some of them grant the asset. */
  ghost predicate Granting(scopes: seq<string>, asset: string) {
    Readable(scopes) && GrantsIn(scopes, asset) != []
  }

  /** Every grant over the asset, root first. */
  ghost function AllGrants(links: seq<seq<string>>, asset: string): seq<SpendScope> {
    if links == [] then [] else AllGrants(links[..|links| - 1], asset) + GrantsIn(links[|links| - 1], asset)
  }

  lemma AllGrantsNext(links: seq<seq<string>>, i: nat, asset: string)
    requires i < |links|
    ensures AllGrants(links[..i + 1], asset) == AllGrants(links[..i], asset) + GrantsIn(links[i], asset)
  {
    hide GrantsIn;
    assert links[..i + 1][..i] == links[..i];
  }

  /** The effective authority down a chain. The first link that is not granting decides between an error and no
      authority. */
  method ComposeSpendAuthority(links: seq<seq<string>>, asset: string) returns (authority: Option<Option<SpendScope>>)
    ensures authority.None? <==>
      exists i :: 0 <= i < |links| && !Readable(links[i]) && forall j | 0 <= j < i :: Granting(links[j], asset)
    ensures authority.Some? && authority.value.Some? <==>
      links != [] && forall i | 0 <= i < |links| :: Granting(links[i], asset)
    ensures authority.Some? && authority.value.Some? ==>
      authority.value.value.asset == asset && IsMeet(AllGrants(links, asset), authority.value.value)
  {
    hide IsDecimal, Readable, GrantsIn, IsMeet, MinCap;
    var effective: Option<SpendScope> := None;
    for i := 0 to |links|
      invariant forall j | 0 <= j < i :: Granting(links[j], asset)
      invariant effective.Some? <==> i > 0
      invariant effective.None? ==> AllGrants(links[..i], asset) == []
      invariant effective.Some? ==>
        effective.value.asset == asset && IsMeet(AllGrants(links[..i], asset), effective.value)
    {
      AllGrantsNext(links, i, asset);
      var authorityOfLink := SpendAuthorityFor(links[i], asset);
      if authorityOfLink.None? {
        return None;
      }
      if authorityOfLink.value.None? {
        assert !Granting(links[i], asset);
        return Some(None);
      }
      MeetIsOfGrants(GrantsIn(links[i], asset), authorityOfLink.value.value);
      assert Granting(links[i], asset);
      if effective.None? {
        assert [] + GrantsIn(links[i], asset) == GrantsIn(links[i], asset);
        effective := authorityOfLink.value;
      } else {
        MeetJoin(AllGrants(links[..i], asset), effective.value, GrantsIn(links[i], asset), authorityOfLink.value.value);
        effective := Intersect(effective.value, authorityOfLink.value.value);
      }
    }
    assert links[..|links|] == links;
    return Some(effective);
  }

  lemma MeetIsOfGrants(grants: seq<SpendScope>, scope: SpendScope)
    requires IsMeet(grants, scope)
    ensures grants != []
  {
  }

  /** The amount is within the grant's transaction cap; on top of what was spent it is within the total cap, and their
      exact sum can be written as an amount. */
  ghost predicate Permits(g: SpendScope, amount: Amount, spent: Amount) {
    && (g.txCap.Some? ==> ValueOf(amount) <= ValueOf(g.txCap.value))
    && (g.totalCap.Some? ==>
          ValueOf(spent) + ValueOf(amount) <= ValueOf(g.totalCap.value) && |SumText(spent, amount)| <= MAX_AMOUNT_CHARS)
  }

  /** Every link grants the asset, and every grant on the chain permits the payment. */
  ghost predicate Approves(links: seq<seq<string>>, asset: string, amount: string, spent: string) {
    && ParseAmount(amount).Some? && ParseAmount(spent).Some?
    && links != []
    && (forall i | 0 <= i < |links| :: Granting(links[i], asset))
    && forall g | g in AllGrants(links, asset) :: Permits(g, amount, spent)
  }

  lemma MeetPermits(grants: seq<SpendScope>, scope: SpendScope, amount: Amount, spent: Amount)
    requires IsMeet(grants, scope)
    ensures Permits(scope, amount, spent) <==> forall g | g in grants :: Permits(g, amount, spent)
  {
    hide IsDecimal, ValueOf, SumText, Tightest;
    var txCaps, totalCaps := TxCaps(grants), TotalCaps(grants);
    TightestAllows(txCaps, scope.txCap, ValueOf(amount));
    TightestAllows(totalCaps, scope.totalCap, ValueOf(spent) + ValueOf(amount));
    assert forall i | 0 <= i < |grants| :: txCaps[i] == grants[i].txCap && totalCaps[i] == grants[i].totalCap;
    if Permits(scope, amount, spent) {
      forall g | g in grants
        ensures Permits(g, amount, spent)
      {
        var i :| 0 <= i < |grants| && grants[i] == g;
        assert txCaps[i] == g.txCap && totalCaps[i] == g.totalCap;
      }
    }
    if forall g | g in grants :: Permits(g, amount, spent) {
      forall i | 0 <= i < |grants|
        ensures Permits(grants[i], amount, spent)
      {
        assert grants[i] in grants;
      }
    }
  }

  /** Approves exactly the payments within every cap on the chain, and returns the chain's composed caps. */
  method Verify(links: seq<seq<string>>, asset: string, amount: string, spentSoFar: string)
    returns (effective: Option<SpendScope>)
    ensures effective.Some? <==> Approves(links, asset, amount, spentSoFar)
    ensures effective.Some? ==> effective.value.asset == asset && IsMeet(AllGrants(links, asset), effective.value)
  {
    hide IsDecimal, Granting, AllGrants, IsMeet, Compare, SumText, ValueOf;
    var amt := ParseAmount(amount);
    if amt.None? {
      return None;
    }
    var spent := ParseAmount(spentSoFar);
    if spent.None? {
      return None;
    }
    var composed := ComposeSpendAuthority(links, asset);
    if composed.None? || composed.value.None? {
      return None;
    }
    var scope := composed.value.value;
    MeetPermits(AllGrants(links, asset), scope, amt.value, spent.value);
    if scope.txCap.Some? {
      CompareIsExact(amt.value, scope.txCap.value);
      if Compare(amt.value, scope.txCap.value) > 0 {
        return None;
      }
    }
    if scope.totalCap.Some? {
      var total := AddAmounts(spent.value, amt.value);
      SumIsExact(spent.value, amt.value);
      if total.None? {
        return None;
      }
      CompareIsExact(total.value, scope.totalCap.value);
      if Compare(total.value, scope.totalCap.value) > 0 {
        return None;
      }
    }
    return Some(scope);
  }

  // ----- longer chains and runs of payments -----

  lemma NoGrants(asset: string)
    ensures AllGrants([], asset) == []
  {
  }

  lemma {:induction false} AllGrantsAppend(a: seq<seq<string>>, b: seq<seq<string>>, asset: string)
    ensures AllGrants(a + b, asset) == AllGrants(a, asset) + AllGrants(b, asset)
  {
    hide GrantsIn, AllGrants, IsDecimal;
    if b == [] {
      assert a + b == a;
      assert AllGrants([], asset) == [] by { NoGrants(asset); }
    } else {
      var n, front, last := |b| - 1, b[..|b| - 1], b[|b| - 1];
      var both := a + b;
      AllGrantsAppend(a, front, asset);
      AllGrantsNext(b, n, asset);
      AllGrantsNext(both, |a| + n, asset);
      assert b[..n + 1] == b && both[..|a| + n + 1] == both;
      assert both[..|a| + n] == a + front && both[|a| + n] == last;
    }
  }

  /** A chain approves exactly what each of its two parts approves, so a delegate never has more than any delegator. */
  lemma ApprovalComposes(a: seq<seq<string>>, b: seq<seq<string>>, asset: string, amount: string, spent: string)
    requires a != [] && b != []
    ensures Approves(a + b, asset, amount, spent) <==>
      Approves(a, asset, amount, spent) && Approves(b, asset, amount, spent)
  {
    hide IsDecimal, Granting, Permits;
    var both := a + b;
    assert forall i | 0 <= i < |a| :: both[i] == a[i];
    assert forall i | 0 <= i < |b| :: both[|a| + i] == b[i];
    AllGrantsAppend(a, b, asset);
    hide AllGrants;
  }

  /** One request to pay, over whatever chain the payer presents, with the spending its own ledger reports. */
  datatype Attempt = Attempt(links: seq<seq<string>>, amount: string, spent: string)

  ghost predicate Approved(asset: string, attempt: Attempt) {
    Approves(attempt.links, asset, attempt.amount, attempt.spent)
  }

  /** The sum of the approved amounts. */
  ghost function Paid(asset: string, attempts: seq<Attempt>): real {
    if attempts == [] then 0.0
    else
      var last := attempts[|attempts| - 1];
      Paid(asset, attempts[..|attempts| - 1]) + if Approved(asset, last) then ValueOf(last.amount) else 0.0
  }

  /** The ledger reports no less than what was approved before. */
  ghost predicate LedgerKept(asset: string, attempts: seq<Attempt>) {
    forall k | 0 <= k < |attempts| && Approved(asset, attempts[k]) ::
      Paid(asset, attempts[..k]) <= ValueOf(attempts[k].spent)
  }

  lemma GrantOfLink(links: seq<seq<string>>, scopes: seq<string>, asset: string, g: SpendScope)
    requires scopes in links && g in GrantsIn(scopes, asset)
    ensures g in AllGrants(links, asset)
  {
    hide GrantsIn;
    if links[|links| - 1] != scopes {
      GrantOfLink(links[..|links| - 1], scopes, asset, g);
    }
  }

  lemma ApprovedWithin(asset: string, attempt: Attempt, scopes: seq<string>, g: SpendScope)
    requires Approved(asset, attempt) && scopes in attempt.links && g in GrantsIn(scopes, asset)
    ensures Permits(g, attempt.amount, attempt.spent)
  {
    hide IsDecimal, Granting, Permits, GrantsIn, AllGrants;
    GrantOfLink(attempt.links, scopes, asset, g);
  }

  /** Over any run of attempts, approved or not, the sum of the approved payments stays within each total cap of every
      link that is on all the chains approved. */
  lemma {:induction false} RunStaysWithinCap(asset: string, attempts: seq<Attempt>, scopes: seq<string>, g: SpendScope)
    requires LedgerKept(asset, attempts)
    requires forall k | 0 <= k < |attempts| && Approved(asset, attempts[k]) :: scopes in attempts[k].links
    requires g in GrantsIn(scopes, asset) && g.totalCap.Some?
    ensures Paid(asset, attempts) <= ValueOf(g.totalCap.value)
  {
    hide IsDecimal, Approved, GrantsIn, ValueOf;
    if attempts == [] {
      ValueIsNotNegative(g.totalCap.value);
    } else {
      var front, last := attempts[..|attempts| - 1], attempts[|attempts| - 1];
      assert forall k | 0 <= k < |front| :: attempts[..k] == front[..k];
      RunStaysWithinCap(asset, front, scopes, g);
      if Approved(asset, last) {
        ApprovedWithin(asset, last, scopes, g);
      }
    }
  }

  // ----- what approval means -----

  /** One of the link's scopes spells g, a grant over the asset. */
  ghost predicate Spelt(scopes: seq<string>, asset: string, g: SpendScope) {
    g.asset == asset && exists j :: 0 <= j < |scopes| && Parse(scopes[j]) == Some(g)
  }

  /** Every scope in the grammar's name parses, and one of them grants the asset. */
  ghost predicate LinkGrants(scopes: seq<string>, asset: string) {
    && (forall j | 0 <= j < |scopes| && IsSpendScope(scopes[j]) :: Parse(scopes[j]).Some?)
    && exists g :: Spelt(scopes, asset, g)
  }

  lemma GrantingMeans(scopes: seq<string>, asset: string)
    ensures Granting(scopes, asset) <==> LinkGrants(scopes, asset)
    ensures forall g :: g in GrantsIn(scopes, asset) <==> Spelt(scopes, asset, g)
  {
    hide Parse, IsDecimal, GrantsIn, IsSpendScope;
    var grants := GrantsIn(scopes, asset);
    forall g
      ensures g in grants <==> Spelt(scopes, asset, g)
    {
      GrantsAre(scopes, asset, g);
    }
    hide Spelt;
    assert grants != [] ==> grants[0] in grants;
  }

  lemma {:induction false} AllGrantsAre(links: seq<seq<string>>, asset: string, g: SpendScope)
    ensures g in AllGrants(links, asset) <==> exists i :: 0 <= i < |links| && g in GrantsIn(links[i], asset)
  {
    hide GrantsIn;
    if links != [] {
      var n := |links| - 1;
      var front := links[..n];
      AllGrantsAre(front, asset, g);
      assert forall i | 0 <= i < n :: front[i] == links[i];
    }
  }

  /** A payment is approved exactly when both amounts parse, the chain is not empty and grants the asset at every link,
      and for each scope that grants it the amount is within the transaction cap, and the amount on top of what was
      spent within the total cap, in rational numbers, their sum taking no more than 40 characters. */
  lemma ApprovalMeans(links: seq<seq<string>>, asset: string, amount: string, spent: string)
    ensures Approves(links, asset, amount, spent) <==>
      && |amount| <= 40 && IsDecimal(amount) && |spent| <= 40 && IsDecimal(spent)
      && links != [] && (forall i | 0 <= i < |links| :: LinkGrants(links[i], asset))
      && (forall i, g | 0 <= i < |links| && Spelt(links[i], asset, g) && g.txCap.Some? ::
            ValueOf(amount) <= ValueOf(g.txCap.value))
      && (forall i, g | 0 <= i < |links| && Spelt(links[i], asset, g) && g.totalCap.Some? ::
            ValueOf(spent) + ValueOf(amount) <= ValueOf(g.totalCap.value) && |SumText(spent, amount)| <= 40)
  {
    hide IsDecimal, ValueOf, SumText, Granting, AllGrants, Spelt, LinkGrants, GrantsIn, Permits;
    forall i | 0 <= i < |links|
      ensures Granting(links[i], asset) <==> LinkGrants(links[i], asset)
    {
      GrantingMeans(links[i], asset);
    }
    if ParseAmount(amount).Some? && ParseAmount(spent).Some? {
      PermittedMeans(links, asset, amount, spent);
    }
  }

  lemma PermittedMeans(links: seq<seq<string>>, asset: string, amount: Amount, spent: Amount)
    ensures (forall g | g in AllGrants(links, asset) :: Permits(g, amount, spent)) <==>
      && (forall i, g | 0 <= i < |links| && Spelt(links[i], asset, g) && g.txCap.Some? ::
            ValueOf(amount) <= ValueOf(g.txCap.value))
      && (forall i, g | 0 <= i < |links| && Spelt(links[i], asset, g) && g.totalCap.Some? ::
            ValueOf(spent) + ValueOf(amount) <= ValueOf(g.totalCap.value) && |SumText(spent, amount)| <= 40)
  {
    hide IsDecimal, ValueOf, SumText, AllGrants, Spelt, GrantsIn;
    forall g
      ensures g in AllGrants(links, asset) <==> exists i :: 0 <= i < |links| && Spelt(links[i], asset, g)
    {
      AllGrantsAre(links, asset, g);
      forall i | 0 <= i < |links|
        ensures g in GrantsIn(links[i], asset) <==> Spelt(links[i], asset, g)
      {
        GrantingMeans(links[i], asset);
      }
    }
    if forall g | g in AllGrants(links, asset) :: Permits(g, amount, spent) {
      forall i, g | 0 <= i < |links| && Spelt(links[i], asset, g)
        ensures g.txCap.Some? ==> ValueOf(amount) <= ValueOf(g.txCap.value)
        ensures g.totalCap.Some? ==>
          ValueOf(spent) + ValueOf(amount) <= ValueOf(g.totalCap.value) && |SumText(spent, amount)| <= 40
      {
        assert g in AllGrants(links, asset);
        assert Permits(g, amount, spent);
      }
    } else {
      var g :| g in AllGrants(links, asset) && !Permits(g, amount, spent);
      var i :| 0 <= i < |links| && Spelt(links[i], asset, g);
    }
  }
}
