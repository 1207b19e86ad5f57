/** The grow-only revocation registry, the producer's feed, and applying a feed delta to a registry. */
module Feed {
  import opened Wrappers
  import opened Crypto
  import opened Delegation
  import opened Chains

  datatype Record = RevocationRecord(revocation: Revocation) | KeyRevocationRecord(keyRevocation: KeyRevocation)

  predicate RecordVerifies(scheme: Scheme, record: Record) {
    match record
    case RevocationRecord(r) => RevocationVerifies(scheme, r)
    case KeyRevocationRecord(r) => KeyRevocationVerifies(scheme, r)
  }

  datatype Known = Known(digests: set<string>, revokedKeys: set<string>, syncedAt: Option<int>)

  function Admit(known: Known, record: Record): Known {
    match record
    case RevocationRecord(r) => known.(digests := known.digests + {r.delegationDigest})
    case KeyRevocationRecord(r) => known.(revokedKeys := known.revokedKeys + {r.address})
  }

  datatype SavedRevocations = SavedRevocations(version: int, digests: set<string>, revokedKeys: set<string>)

  class RevocationRegistry {
    const scheme: Scheme
    var digests: set<string>
    var revokedKeys: set<string>
    var syncedAt: Option<int>

    function View(): Known
      reads this
    {
      Known(digests, revokedKeys, syncedAt)
    }

    constructor (scheme: Scheme, syncedAt: Option<int>)
      ensures View() == Known({}, {}, syncedAt) && this.scheme == scheme
    {
      this.scheme := scheme;
      digests, revokedKeys, this.syncedAt := {}, {}, syncedAt;
    }

    method Add(revocation: Revocation) returns (ok: bool)
      modifies this
      ensures ok <==> RevocationVerifies(scheme, revocation)
      ensures View() == if ok then Admit(old(View()), RevocationRecord(revocation)) else old(View())
    {
      ok := RevocationVerifies(scheme, revocation);
      if ok {
        digests := digests + {revocation.delegationDigest};
      }
    }

    method RevokeKey(revocation: KeyRevocation) returns (ok: bool)
      modifies this
      ensures ok <==> KeyRevocationVerifies(scheme, revocation)
      ensures View() == if ok then Admit(old(View()), KeyRevocationRecord(revocation)) else old(View())
    {
      ok := VerifyKeyRevocation(scheme, revocation);
      if ok {
        revokedKeys := revokedKeys + {revocation.address};
      }
    }

    method MarkSynced(when: int)
      modifies this
      ensures View() == old(View()).(syncedAt := Some(when))
    {
      syncedAt := Some(when);
    }

    /** Additive: a revocation is permanent, so restoring only grows the sets, whatever the snapshot's version. */
    method Restore(saved: SavedRevocations)
      modifies this
      ensures View() == Known(old(digests) + saved.digests, old(revokedKeys) + saved.revokedKeys, old(syncedAt))
    {
      digests := digests + saved.digests;
      revokedKeys := revokedKeys + saved.revokedKeys;
    }
  }

  // ----- feed entries -----

  const KIND_REVOCATION: string := "revocation"
  const KIND_KEY_REVOCATION: string := "key-revocation"

  /** A record's wire form, by what it parses to as each kind of record. */
  datatype WireRecord = WireRecord(asRevocation: Option<Revocation>, asKeyRevocation: Option<KeyRevocation>)

  datatype FeedEntry = FeedEntry(seqno: int, kind: string, record: WireRecord)

  predicate EntryValid(entry: FeedEntry) {
    entry.seqno > 0 && (entry.kind == KIND_REVOCATION || entry.kind == KIND_KEY_REVOCATION)
  }

  /** The carried record, not yet verified; None when it does not parse as its kind. */
  function Revive(entry: FeedEntry): Option<Record> {
    if entry.kind == KIND_REVOCATION then
      match entry.record.asRevocation case None => None case Some(r) => Some(RevocationRecord(r))
    else
      match entry.record.asKeyRevocation case None => None case Some(r) => Some(KeyRevocationRecord(r))
  }

  function EntryFor(seqno: int, record: Record): FeedEntry {
    match record
    case RevocationRecord(r) => FeedEntry(seqno, KIND_REVOCATION, WireRecord(Some(r), None))
    case KeyRevocationRecord(r) => FeedEntry(seqno, KIND_KEY_REVOCATION, WireRecord(None, Some(r)))
  }

  lemma ReviveInvertsEntry(seqno: int, record: Record)
    requires seqno > 0
    ensures EntryValid(EntryFor(seqno, record)) && Revive(EntryFor(seqno, record)) == Some(record)
  {
  }

  predicate EntryVerifies(scheme: Scheme, entry: FeedEntry) {
    match Revive(entry) case None => false case Some(record) => RecordVerifies(scheme, record)
  }

  /** The digests, and the keys, that a run of entries revokes. */
  function DigestsOf(entries: seq<FeedEntry>): set<string> {
    set e | e in entries && Revive(e).Some? && Revive(e).value.RevocationRecord? ::
      Revive(e).value.revocation.delegationDigest
  }

  function KeysOf(entries: seq<FeedEntry>): set<string> {
    set e | e in entries && Revive(e).Some? && Revive(e).value.KeyRevocationRecord? ::
      Revive(e).value.keyRevocation.address
  }

  function Absorb(known: Known, entries: seq<FeedEntry>): Known {
    known.(digests := known.digests + DigestsOf(entries), revokedKeys := known.revokedKeys + KeysOf(entries))
  }

  lemma AbsorbAppend(known: Known, a: seq<FeedEntry>, b: seq<FeedEntry>)
    ensures Absorb(known, a + b) == Absorb(Absorb(known, a), b)
  {
    assert forall e :: e in a + b <==> e in a || e in b;
    assert DigestsOf(a + b) == DigestsOf(a) + DigestsOf(b);
    assert KeysOf(a + b) == KeysOf(a) + KeysOf(b);
  }

  lemma AbsorbOne(known: Known, entry: FeedEntry)
    requires Revive(entry).Some?
    ensures Absorb(known, [entry]) == Admit(known, Revive(entry).value)
  {
  }

  lemma AbsorbNone(known: Known)
    ensures Absorb(known, []) == known
  {
  }

  // ----- the producer -----

  function Since(entries: seq<FeedEntry>, cursor: int): (delta: seq<FeedEntry>)
  {
    if entries == [] then []
    else
      var front, last := entries[..|entries| - 1], entries[|entries| - 1];
      Since(front, cursor) + if last.seqno > cursor then [last] else []
  }

  /** A log whose entries are verified, and numbered from 1 without gaps. */
  ghost predicate IsLog(scheme: Scheme, entries: seq<FeedEntry>) {
    forall i | 0 <= i < |entries| ::
      entries[i].seqno == i + 1 && EntryValid(entries[i]) && EntryVerifies(scheme, entries[i])
  }

  lemma {:induction false} SinceIsSuffix(scheme: Scheme, entries: seq<FeedEntry>, cursor: int)
    requires IsLog(scheme, entries)
    ensures Since(entries, cursor) == After(entries, cursor)
  {
    hide EntryVerifies, EntryValid;
    if entries != [] {
      var n := |entries| - 1;
      SinceIsSuffix(scheme, entries[..n], cursor);
      assert entries[n].seqno == n + 1;
      hide IsLog;
      AfterNext(entries, n, cursor);
    }
  }

  /** The entries at positions from the cursor on. */
  function After(entries: seq<FeedEntry>, cursor: int): seq<FeedEntry> {
    if cursor <= 0 then entries else if cursor >= |entries| then [] else entries[cursor..]
  }

  lemma AfterNext(entries: seq<FeedEntry>, n: nat, cursor: int)
    requires |entries| == n + 1
    ensures After(entries, cursor) == After(entries[..n], cursor) + if n + 1 > cursor then [entries[n]] else []
  {
    assert entries == entries[..n] + [entries[n]];
    if 0 < cursor < n {
      assert entries[cursor..] == entries[..n][cursor..] + [entries[n]];
    }
  }

  class RevocationFeed {
    const scheme: Scheme
    var entries: seq<FeedEntry>
    var seqno: int

    ghost predicate Valid()
      reads this
    {
      IsLog(scheme, entries) && seqno == |entries|
    }

    constructor (scheme: Scheme)
      ensures Valid() && entries == [] && this.scheme == scheme
    {
      this.scheme := scheme;
      entries, seqno := [], 0;
    }

    /** Verified before it is admitted; the cursor is never reused. */
    method Append(record: Record) returns (entry: Option<FeedEntry>)
      requires Valid()
      modifies this
      ensures Valid()
      ensures entry.Some? <==> RecordVerifies(scheme, record)
      ensures entry.Some? ==> entry.value == EntryFor(old(seqno) + 1, record)
      ensures entries == if entry.Some? then old(entries) + [entry.value] else old(entries)
    {
      hide RevocationVerifies, KeyRevocationVerifies;
      var ok := RecordVerifies(scheme, record);
      if !ok {
        return None;
      }
      seqno := seqno + 1;
      var appended := EntryFor(seqno, record);
      entries := entries + [appended];
      return Some(appended);
    }

    method EntriesSince(cursor: int) returns (delta: seq<FeedEntry>, newest: int)
      requires Valid()
      ensures delta == Since(entries, cursor) && newest == |entries|
    {
      delta := [];
      for i := 0 to |entries|
        invariant delta == Since(entries[..i], cursor)
      {
        assert entries[..i + 1][..i] == entries[..i];
        if entries[i].seqno > cursor {
          delta := delta + [entries[i]];
        }
      }
      assert entries[..|entries|] == entries;
      newest := seqno;
    }
  }

  // ----- the consumer -----

  /** Numbered since+1, since+2, … without gaps, and ending at the cursor to persist. */
  predicate WellSequenced(entries: seq<FeedEntry>, cursor: int, since: int) {
    && (forall i | 0 <= i < |entries| :: EntryValid(entries[i]) && entries[i].seqno == since + 1 + i)
    && (entries != [] ==> since + |entries| == cursor)
  }

  /** How many leading entries carry records that verify. */
  function VerifiedPrefix(scheme: Scheme, entries: seq<FeedEntry>): nat {
    if entries == [] || !EntryVerifies(scheme, entries[0]) then 0 else 1 + VerifiedPrefix(scheme, entries[1..])
  }

  lemma {:induction false} VerifiedPrefixIsLongest(scheme: Scheme, entries: seq<FeedEntry>)
    ensures
      var n := VerifiedPrefix(scheme, entries);
      && n <= |entries|
      && (forall i | 0 <= i < n :: EntryVerifies(scheme, entries[i]))
      && (n < |entries| ==> !EntryVerifies(scheme, entries[n]))
  {
    hide EntryVerifies;
    if entries != [] && EntryVerifies(scheme, entries[0]) {
      VerifiedPrefixIsLongest(scheme, entries[1..]);
      assert forall i | 1 <= i < |entries| :: entries[i] == entries[1..][i - 1];
    }
  }

  /** The registry after a delta, and the cursor to persist; None stands for a raised error. */
  function Applied(scheme: Scheme, known: Known, entries: seq<FeedEntry>, cursor: int, when: int, since: int):
    (Known, Option<int>)
  {
    if !WellSequenced(entries, cursor, since) then (known, None)
    else
      VerifiedPrefixIsLongest(scheme, entries);
      var n := VerifiedPrefix(scheme, entries);
      if n < |entries| then (Absorb(known, entries[..n]), None)
      else (Absorb(known, entries).(syncedAt := Some(when)), Some(cursor))
  }

  method CheckSequence(entries: seq<FeedEntry>, cursor: int, since: int) returns (ok: bool)
    ensures ok <==> WellSequenced(entries, cursor, since)
  {
    for i := 0 to |entries|
      invariant forall j | 0 <= j < i :: EntryValid(entries[j])
    {
      if !EntryValid(entries[i]) {
        return false;
      }
    }
    var previous := since;
    for i := 0 to |entries|
      invariant previous == since + i
      invariant forall j | 0 <= j < i :: entries[j].seqno == since + 1 + j
    {
      if entries[i].seqno <= since {
        return false;
      }
      if entries[i].seqno != previous + 1 {
        return false;
      }
      previous := entries[i].seqno;
    }
    return entries == [] || previous == cursor;
  }

  /** The registry verifies every record again before admitting it. */
  method AdmitEntry(registry: RevocationRegistry, entry: FeedEntry) returns (admitted: bool)
    modifies registry
    ensures admitted <==> EntryVerifies(registry.scheme, entry)
    ensures registry.View() == if admitted then Absorb(old(registry.View()), [entry]) else old(registry.View())
  {
    hide RevocationVerifies, KeyRevocationVerifies, DigestsOf, KeysOf;
    var record := Revive(entry);
    if record.None? {
      return false;
    }
    AbsorbOne(registry.View(), entry);
    if record.value.RevocationRecord? {
      admitted := registry.Add(record.value.revocation);
    } else {
      admitted := registry.RevokeKey(record.value.keyRevocation);
    }
  }

  method ApplyFeedDelta(registry: RevocationRegistry, entries: seq<FeedEntry>, cursor: int, when: int, since: int)
    returns (result: Option<int>)
    modifies registry
    ensures (registry.View(), result) == Applied(registry.scheme, old(registry.View()), entries, cursor, when, since)
  {
    hide EntryVerifies, Absorb, WellSequenced;
    var ok := CheckSequence(entries, cursor, since);
    if !ok {
      return None;
    }
    ghost var before := registry.View();
    AbsorbNone(before);
    VerifiedPrefixIsLongest(registry.scheme, entries);
    for i := 0 to |entries|
      invariant i <= VerifiedPrefix(registry.scheme, entries)
      invariant registry.View() == Absorb(before, entries[..i])
    {
      var admitted := AdmitEntry(registry, entries[i]);
      if !admitted {
        return None;
      }
      assert entries[..i + 1] == entries[..i] + [entries[i]];
      AbsorbAppend(before, entries[..i], [entries[i]]);
    }
    assert entries[..|entries|] == entries;
    registry.MarkSynced(when);
    return Some(cursor);
  }

  method SyncRegistry(registry: RevocationRegistry, feed: RevocationFeed, since: int, when: int)
    returns (result: Option<int>)
    requires feed.Valid()
    modifies registry
    ensures (registry.View(), result) ==
      Applied(registry.scheme, old(registry.View()), Since(feed.entries, since), |feed.entries|, when, since)
  {
    var delta, cursor := feed.EntriesSince(since);
    result := ApplyFeedDelta(registry, delta, cursor, when, since);
  }

  /** An arbitrary delta fails safely. On success it is numbered since+1 to the cursor, all verified, and the registry
      gained exactly its records; an empty delta is the exception, whose cursor is returned unchecked. On failure the
      sync time stays and only a verified proper prefix was admitted, or nothing at all if the numbering was wrong. */
  lemma DeltaFailsSafely(scheme: Scheme, known: Known, entries: seq<FeedEntry>, cursor: int, when: int, since: int)
    ensures
      var (after, result) := Applied(scheme, known, entries, cursor, when, since);
      match result
      case Some(persisted) =>
        && persisted == cursor
        && (entries != [] ==> cursor == since + |entries|)
        && (forall i | 0 <= i < |entries| :: entries[i].seqno == since + 1 + i && EntryVerifies(scheme, entries[i]))
        && (forall e | e in entries :: e.seqno > 0 && (e.kind == "revocation" || e.kind == "key-revocation"))
        && after.digests == known.digests + DigestsOf(entries)
        && after.revokedKeys == known.revokedKeys + KeysOf(entries)
        && after.syncedAt == Some(when)
      case None =>
        && after.syncedAt == known.syncedAt
        && exists n: nat | n < |entries| ::
             && after == Absorb(known, entries[..n])
             && (forall i | 0 <= i < n :: EntryVerifies(scheme, entries[i]))
             && (!WellSequenced(entries, cursor, since) ==> n == 0 && after == known)
             && (WellSequenced(entries, cursor, since) ==> !EntryVerifies(scheme, entries[n]))
  {
    hide EntryVerifies, DigestsOf, KeysOf;
    AbsorbNone(known);
    assert WellSequenced(entries, cursor, since) ==>
      forall e | e in entries :: e.seqno > 0 && (e.kind == "revocation" || e.kind == "key-revocation");
    hide EntryValid;
    if !WellSequenced(entries, cursor, since) {
      assert entries[..0] == [];
    } else {
      VerifiedPrefixIsLongest(scheme, entries);
      var n := VerifiedPrefix(scheme, entries);
      assert n < |entries| ==> Applied(scheme, known, entries, cursor, when, since).0 == Absorb(known, entries[..n]);
    }
  }
}
