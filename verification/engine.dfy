/**
 * `computeDelta`: reconciles the recently updated contacts and the
 * de-duplicated removal feed against the snapshot, classifies each change,
 * orders the merged list newest first and returns one page of it.
 */
module Engine {
  import opened Options
  import opened LongText
  import opened Contacts
  import opened Windows
  import opened Sorting
  import LinkedMaps
  import opened SnapshotStore
  import Deltas
  import PhoneDiff

  /**
   * What the contacts provider holds, in the order its queries return rows:
   * contacts newest-updated first, and the deleted-contacts log newest-deleted first.
   */
  datatype Provider = Provider(contacts: seq<Contact>, deletedLog: seq<DeletedContact>)

  /** The result of one delta call: a page of the feed and the proposed next checkpoint. */
  datatype DeltaResult = DeltaResult(items: seq<ContactDelta>, nextSince: string)

  /** `coerceAtLeast(0)`. */
  function Clamp(x: int): nat {
    if x < 0 then 0 else x
  }

  /** The SQL selection `lastUpdated > t`, which excludes contacts with no timestamp. */
  function UpdatedSince(t: int): Contact -> bool {
    (c: Contact) => c.lastUpdatedAt.Some? && c.lastUpdatedAt.value > t
  }

  /** Contacts whose last-updated timestamp is known and later than `t`, in query order. */
  function UpdatedAfter(contacts: seq<Contact>, t: int): (r: seq<Contact>)
    ensures |r| <= |contacts|
    ensures forall c :: c in r <==> c in contacts && c.lastUpdatedAt.Some? && c.lastUpdatedAt.value > t
  {
    Filter(contacts, UpdatedSince(t))
  }

  /** The selection keeps query order: the rows selected from two runs of rows are those of the first run, then those of the second. */
  lemma {:induction false} UpdatedAfterKeepsOrder(a: seq<Contact>, b: seq<Contact>, t: int)
    ensures UpdatedAfter(a + b, t) == UpdatedAfter(a, t) + UpdatedAfter(b, t)
  {
    FilterAppend(a, b, UpdatedSince(t));
  }

  /** The SQL selection `deleted timestamp > t`. */
  function RemovedSince(t: int): DeletedContact -> bool {
    (d: DeletedContact) => d.deletedAt > t
  }

  /** Deleted-log rows whose deletion timestamp is later than `t`, in query order. */
  function RemovedAfter(log: seq<DeletedContact>, t: int): (r: seq<DeletedContact>)
    ensures |r| <= |log|
    ensures forall d :: d in r <==> d in log && d.deletedAt > t
  {
    Filter(log, RemovedSince(t))
  }

  /** The selection keeps query order: the rows selected from two runs of rows are those of the first run, then those of the second. */
  lemma {:induction false} RemovedAfterKeepsOrder(a: seq<DeletedContact>, b: seq<DeletedContact>, t: int)
    ensures RemovedAfter(a + b, t) == RemovedAfter(a, t) + RemovedAfter(b, t)
  {
    FilterAppend(a, b, RemovedSince(t));
  }

  /** `queryContactsForDelta`: up to `desiredCount` contacts, filtered by update time only when `sinceMs > 0`. */
  function QueryContactsForDelta(p: Provider, sinceMs: int, desiredCount: int): (r: seq<Contact>)
    ensures desiredCount <= 0 ==> r == []
    ensures |r| <= Clamp(desiredCount)
    ensures sinceMs <= 0 ==> r == Take(p.contacts, desiredCount)
    ensures sinceMs > 0 ==> r == Take(UpdatedAfter(p.contacts, sinceMs), desiredCount)
    ensures sinceMs > 0 ==> forall c :: c in r ==> c.lastUpdatedAt.Some? && c.lastUpdatedAt.value > sinceMs
  {
    if desiredCount <= 0 then []
    else
      var rows := if sinceMs > 0 then UpdatedAfter(p.contacts, sinceMs) else p.contacts;
      var r := Take(rows, desiredCount);
      assert forall c :: c in r ==> c in rows;
      r
  }

  function RemovedIds(rows: seq<DeletedContact>): seq<string> {
    seq(|rows|, i requires 0 <= i < |rows| => rows[i].contactId)
  }

  function RemovalPairs(rows: seq<DeletedContact>): seq<(string, DeletedContact)> {
    seq(|rows|, i requires 0 <= i < |rows| => (rows[i].contactId, rows[i]))
  }

  /** The first row of `rows` for contact `id`. */
  function FirstRemoval(rows: seq<DeletedContact>, id: string): Option<DeletedContact> {
    LinkedMaps.FirstValue(RemovalPairs(rows), id)
  }

  /**
   * The de-duplication of the removal rows through a `LinkedHashMap`: one row per
   * contact id, the first one, in order of first occurrence.
   */
  function DedupRemoved(rows: seq<DeletedContact>): (r: seq<DeletedContact>)
    ensures RemovedIds(r) == LinkedMaps.Dedup(RemovedIds(rows))
    ensures forall i, j :: 0 <= i < j < |r| ==> r[i].contactId != r[j].contactId
    ensures forall d :: d in r ==> FirstRemoval(rows, d.contactId) == Some(d)
  {
    var m := LinkedMaps.AssociateFirst(RemovalPairs(rows));
    RemovalMapKeys(rows, m);
    RemovalMapFirst(rows, m);
    LinkedMaps.Values(m)
  }

  /** The map built from the removal rows is keyed by each row's own id, in order of first occurrence. */
  lemma RemovalMapKeys(rows: seq<DeletedContact>, m: LinkedMaps.LinkedMap<string, DeletedContact>)
    requires m == LinkedMaps.AssociateFirst(RemovalPairs(rows))
    ensures forall p :: p in m ==> p.0 == p.1.contactId
    ensures RemovedIds(LinkedMaps.Values(m)) == LinkedMaps.Dedup(RemovedIds(rows))
    ensures forall i, j :: 0 <= i < j < |m| ==> LinkedMaps.Values(m)[i].contactId != LinkedMaps.Values(m)[j].contactId
  {
    var pairs := RemovalPairs(rows);
    assert LinkedMaps.Keys(pairs) == RemovedIds(rows);
    forall p | p in m
      ensures p.0 == p.1.contactId
    {
      assert p in pairs;
    }
    var r := LinkedMaps.Values(m);
    assert forall i :: 0 <= i < |m| ==> r[i] == m[i].1 && m[i] in m;
    assert RemovedIds(r) == LinkedMaps.Keys(m);
  }

  /** Each value of the map built from the removal rows is the first row for its id. */
  lemma RemovalMapFirst(rows: seq<DeletedContact>, m: LinkedMaps.LinkedMap<string, DeletedContact>)
    requires m == LinkedMaps.AssociateFirst(RemovalPairs(rows))
    requires forall p :: p in m ==> p.0 == p.1.contactId
    ensures forall d :: d in LinkedMaps.Values(m) ==> FirstRemoval(rows, d.contactId) == Some(d)
  {
    var r := LinkedMaps.Values(m);
    forall d | d in r
      ensures FirstRemoval(rows, d.contactId) == Some(d)
    {
      var i :| 0 <= i < |r| && r[i] == d;
      assert m[i] in m;
      LinkedMaps.GetIffIn(m, m[i]);
    }
  }

  /**
   * `queryDeletedContacts`: nothing unless both the threshold and the cap are
   * positive; otherwise up to `desiredCount` log rows later than the threshold,
   * then de-duplicated.
   */
  function QueryDeletedContacts(p: Provider, sinceMs: int, desiredCount: int): (r: seq<DeletedContact>)
    ensures desiredCount <= 0 || sinceMs <= 0 ==> r == []
    ensures |r| <= Clamp(desiredCount)
    ensures forall i, j :: 0 <= i < j < |r| ==> r[i].contactId != r[j].contactId
    ensures forall d :: d in r ==> d in p.deletedLog && d.deletedAt > sinceMs
    ensures desiredCount > 0 && sinceMs > 0 ==> r == DedupRemoved(Take(RemovedAfter(p.deletedLog, sinceMs), desiredCount))
  {
    if desiredCount <= 0 || sinceMs <= 0 then []
    else
      var rows := Take(RemovedAfter(p.deletedLog, sinceMs), desiredCount);
      var r := DedupRemoved(rows);
      assert |r| <= |rows| by {
        LinkedMaps.DedupLength(RemovedIds(rows));
      }
      assert forall d :: d in r ==> d in rows by {
        forall d | d in r
          ensures d in rows
        {
          FirstRemovalIn(rows, d.contactId);
        }
      }
      r
  }

  lemma {:induction false} FirstRemovalIn(rows: seq<DeletedContact>, id: string)
    ensures FirstRemoval(rows, id).Some? ==> FirstRemoval(rows, id).value in rows
  {
    if |rows| > 0 {
      var n := |rows| - 1;
      assert RemovalPairs(rows)[..n] == RemovalPairs(rows[..n]);
      FirstRemovalIn(rows[..n], id);
    }
  }

  function IdSet(contacts: seq<Contact>): set<string> {
    set c | c in contacts :: c.id
  }

  /** The snapshot's phone entries for contact `id`, if it has an entry. */
  function SnapshotPhones(snap: Snapshot, id: string): Option<seq<PhoneEntry>> {
    if id in snap then Some(snap[id].phoneNumbers) else None
  }

  /** The entry for an updated contact: CREATED without a snapshot entry, UPDATED with one. */
  function UpdatedDelta(snap: Snapshot, c: Contact, now: Long): ContactDelta {
    var previous := if c.id in snap then Some(snap[c.id]) else None;
    Deltas.BuildDelta(Some(c), previous, if previous.None? then Created else Updated, c.lastUpdatedAt.GetOr(now))
  }

  /** One entry per updated contact, in order. */
  function UpdatedDeltas(snap: Snapshot, updated: seq<Contact>, now: Long): (r: seq<ContactDelta>)
    ensures |r| == |updated|
    ensures forall i :: 0 <= i < |r| ==>
      && r[i].id == updated[i].id
      && !r[i].isDeleted
      && (r[i].changeType == Created <==> updated[i].id !in snap)
      && (r[i].previous.Some? <==> updated[i].id in snap)
      && r[i].sortTimestamp == updated[i].lastUpdatedAt.GetOr(now)
      && r[i].phoneNumberChanges == PhoneDiff.Diff(Some(updated[i].phoneNumbers), SnapshotPhones(snap, updated[i].id))
      && r[i] == UpdatedDelta(snap, updated[i], now)
  {
    seq(|updated|, i requires 0 <= i < |updated| => UpdatedDelta(snap, updated[i], now))
  }

  /** A removal is observable when its contact was in the snapshot and is not among the updated contacts. */
  predicate Observable(snap: Snapshot, updatedIds: set<string>, d: DeletedContact) {
    d.contactId in snap && d.contactId !in updatedIds
  }

  /** The entry for an observable removal. */
  function DeletionDelta(snap: Snapshot, d: DeletedContact): (x: ContactDelta)
    requires d.contactId in snap
    ensures x.id == d.contactId && x.isDeleted && x.changeType == Deleted
    ensures x.previous.Some? && x.previous.value.phoneNumbers == Numbers(snap[d.contactId].phoneNumbers)
    ensures x.sortTimestamp == d.deletedAt
  {
    Deltas.BuildDelta(None, Some(snap[d.contactId]), Deleted, d.deletedAt)
  }

  /** One DELETED entry per observable removal, in order; the others are dropped. */
  function DeletedDeltas(snap: Snapshot, updatedIds: set<string>, removed: seq<DeletedContact>): (r: seq<ContactDelta>)
    ensures |r| <= |removed|
    ensures forall x :: x in r ==> x.isDeleted && x.id in snap && x.id !in updatedIds && x.previous.Some?
    ensures forall d :: d in removed && Observable(snap, updatedIds, d) ==> DeletionDelta(snap, d) in r
    ensures forall x :: x in r ==> exists d :: d in removed && Observable(snap, updatedIds, d) && x == DeletionDelta(snap, d)
  {
    if |removed| == 0 then []
    else
      var d := removed[0];
      var rest := DeletedDeltas(snap, updatedIds, removed[1..]);
      var r := if Observable(snap, updatedIds, d) then [DeletionDelta(snap, d)] + rest else rest;
      assert removed == [d] + removed[1..];
      DeletionsCons(snap, updatedIds, d, removed[1..], rest, r);
      r
  }

  /** The deletion entries of `[d] + tail`, from those of `tail`. */
  lemma DeletionsCons(snap: Snapshot, updatedIds: set<string>, d: DeletedContact, tail: seq<DeletedContact>,
                      rest: seq<ContactDelta>, r: seq<ContactDelta>)
    requires |rest| <= |tail|
    requires forall x :: x in rest ==> x.isDeleted && x.id in snap && x.id !in updatedIds && x.previous.Some?
    requires forall e :: e in tail && Observable(snap, updatedIds, e) ==> DeletionDelta(snap, e) in rest
    requires forall x :: x in rest ==> exists e :: e in tail && Observable(snap, updatedIds, e) && x == DeletionDelta(snap, e)
    requires r == if Observable(snap, updatedIds, d) then [DeletionDelta(snap, d)] + rest else rest
    ensures |r| <= |[d] + tail|
    ensures forall x :: x in r ==> x.isDeleted && x.id in snap && x.id !in updatedIds && x.previous.Some?
    ensures forall e :: e in [d] + tail && Observable(snap, updatedIds, e) ==> DeletionDelta(snap, e) in r
    ensures forall x :: x in r ==> exists e :: e in [d] + tail && Observable(snap, updatedIds, e) && x == DeletionDelta(snap, e)
  {
    forall x | x in r
      ensures exists e :: e in [d] + tail && Observable(snap, updatedIds, e) && x == DeletionDelta(snap, e)
    {
      if x in rest {
        var e :| e in tail && Observable(snap, updatedIds, e) && x == DeletionDelta(snap, e);
        assert e in [d] + tail;
      } else {
        assert d in [d] + tail;
      }
    }
  }

  /** Every deletion entry names one of the removals. */
  lemma {:induction false} DeletedDeltaIds(snap: Snapshot, updatedIds: set<string>, removed: seq<DeletedContact>)
    ensures forall x :: x in DeletedDeltas(snap, updatedIds, removed) ==> x.id in RemovedIds(removed)
  {
    if |removed| > 0 {
      DeletedDeltaIds(snap, updatedIds, removed[1..]);
      assert RemovedIds(removed) == [removed[0].contactId] + RemovedIds(removed[1..]);
    }
  }

  /** No two entries of `r` name the same contact. */
  predicate DistinctIds(r: seq<ContactDelta>) {
    forall i, j :: 0 <= i < j < |r| ==> r[i].id != r[j].id
  }

  lemma ConsDistinct(x: ContactDelta, rest: seq<ContactDelta>)
    requires DistinctIds(rest)
    requires forall y :: y in rest ==> y.id != x.id
    ensures DistinctIds([x] + rest)
  {
    var r := [x] + rest;
    forall i, j | 0 <= i < j < |r|
      ensures r[i].id != r[j].id
    {
      assert r[j] == rest[j - 1] && rest[j - 1] in rest;
      if i > 0 {
        assert r[i] == rest[i - 1];
      }
    }
  }

  /** The deletion entries of distinct removals carry distinct ids. */
  lemma {:induction false} DeletedDeltasDistinct(snap: Snapshot, updatedIds: set<string>, removed: seq<DeletedContact>)
    requires forall i, j :: 0 <= i < j < |removed| ==> removed[i].contactId != removed[j].contactId
    ensures DistinctIds(DeletedDeltas(snap, updatedIds, removed))
  {
    if |removed| > 0 {
      var tail := removed[1..];
      DeletedDeltasDistinct(snap, updatedIds, tail);
      if Observable(snap, updatedIds, removed[0]) {
        DeletedDeltaIds(snap, updatedIds, tail);
        assert removed[0].contactId !in RemovedIds(tail) by {
          forall k | 0 <= k < |tail|
            ensures RemovedIds(tail)[k] != removed[0].contactId
          {
            assert tail[k] == removed[k + 1];
          }
        }
        ConsDistinct(DeletionDelta(snap, removed[0]), DeletedDeltas(snap, updatedIds, tail));
      }
    }
  }

  /**
   * The merged feed: updated entries then deletion entries, stably sorted newest
   * first by sort timestamp.
   */
  function Candidates(snap: Snapshot, updated: seq<Contact>, removed: seq<DeletedContact>, now: Long): (r: seq<ContactDelta>)
    ensures multiset(r) == multiset(UpdatedDeltas(snap, updated, now) + DeletedDeltas(snap, IdSet(updated), removed))
    ensures NonIncreasing(r, SortKey)
    ensures forall t ::
      (Ties(r, SortKey, t) == Ties(UpdatedDeltas(snap, updated, now), SortKey, t) + Ties(DeletedDeltas(snap, IdSet(updated), removed), SortKey, t))
    ensures forall x :: x in r ==> (x.isDeleted <==> x.id !in IdSet(updated))
    ensures forall x :: x in r && x.isDeleted ==> x.id in snap && x.changeType == Deleted
    ensures |r| == |updated| + |DeletedDeltas(snap, IdSet(updated), removed)|
  {
    var ups := UpdatedDeltas(snap, updated, now);
    var dels := DeletedDeltas(snap, IdSet(updated), removed);
    var r := SortByDescending(ups + dels, SortKey);
    TiesOfBoth(ups, dels);
    PermutationMembers(r, ups + dels);
    UpdatedDeltasLive(snap, updated, now);
    r
  }

  /** The merged list is the updated entries followed by the deletions, sorted newest first. */
  lemma CandidatesSorted(snap: Snapshot, updated: seq<Contact>, removed: seq<DeletedContact>, now: Long)
    ensures Candidates(snap, updated, removed, now)
      == SortByDescending(UpdatedDeltas(snap, updated, now) + DeletedDeltas(snap, IdSet(updated), removed), SortKey)
  {
  }

  /** A permutation has the same members and the same length. */
  lemma PermutationMembers(r: seq<ContactDelta>, s: seq<ContactDelta>)
    requires multiset(r) == multiset(s)
    ensures forall x :: x in r <==> x in s
    ensures |r| == |s|
  {
    assert forall x :: x in r <==> x in multiset(s);
    assert |multiset(r)| == |multiset(s)|;
  }

  lemma TiesOfBoth(ups: seq<ContactDelta>, dels: seq<ContactDelta>)
    ensures forall t :: Ties(ups + dels, SortKey, t) == Ties(ups, SortKey, t) + Ties(dels, SortKey, t)
  {
    forall t
      ensures Ties(ups + dels, SortKey, t) == Ties(ups, SortKey, t) + Ties(dels, SortKey, t)
    {
      TiesAppend(ups, dels, SortKey, t);
    }
  }

  /** Every updated entry is live and names one of the updated contacts. */
  lemma UpdatedDeltasLive(snap: Snapshot, updated: seq<Contact>, now: Long)
    ensures forall x :: x in UpdatedDeltas(snap, updated, now) ==> x.id in IdSet(updated) && !x.isDeleted
  {
    var ups := UpdatedDeltas(snap, updated, now);
    forall x | x in ups
      ensures x.id in IdSet(updated) && !x.isDeleted
    {
      var i :| 0 <= i < |ups| && ups[i] == x;
      assert updated[i] in updated;
    }
  }

  /** Page bookkeeping shared by the as-written and the corrected delta call. */
  function Page(combined: seq<ContactDelta>, offset: Int32, limit: Int32): (items: seq<ContactDelta>)
    ensures |items| <= Clamp(limit)
    ensures Clamp(offset) >= |combined| ==> items == []
    ensures forall i :: 0 <= i < |items| ==> Clamp(offset) + i < |combined| && items[i] == combined[Clamp(offset) + i]
  {
    var off := Clamp(offset);
    var lim := Clamp(limit);
    WindowElements(combined, off, lim);
    if off >= |combined| then [] else Window(combined, off, lim)
  }

  /** A page of a newest-first list is newest first. */
  lemma PageKeepsOrder(combined: seq<ContactDelta>, offset: Int32, limit: Int32)
    requires NonIncreasing(combined, SortKey)
    ensures NonIncreasing(Page(combined, offset, limit), SortKey)
  {
    var items := Page(combined, offset, limit);
    forall i, j | 0 <= i < j < |items|
      ensures SortKey(items[i]) >= SortKey(items[j])
    {
      assert items[i] == combined[Clamp(offset) + i] && items[j] == combined[Clamp(offset) + j];
    }
  }

  /** Loads the snapshot and reconciles the provider's rows, fetched with the given cap, against it. */
  function Reconcile(file: SnapshotFile, p: Provider, sinceMs: Long, desiredCount: int, now: Long, write: WriteOutcome): (r: (seq<ContactDelta>, SnapshotFile))
    ensures r.0 == Candidates(Load(file, p.contacts, write).0, QueryContactsForDelta(p, sinceMs, desiredCount),
                              QueryDeletedContacts(p, sinceMs, desiredCount), now)
    ensures r.1 == Load(file, p.contacts, write).1
  {
    var (snap, file') := Load(file, p.contacts, write);
    var updated := QueryContactsForDelta(p, sinceMs, desiredCount);
    var removed := QueryDeletedContacts(p, sinceMs, desiredCount);
    (Candidates(snap, updated, removed, now), file')
  }

  /**
   * The body shared by the as-written and the corrected delta call, given the
   * row cap it passes to both provider queries: the proposed checkpoint is the
   * call's clock reading; a non-positive limit returns at once without touching
   * the snapshot; otherwise the page is taken from the merged list.
   */
  function DeltaCall(file: SnapshotFile, p: Provider, sinceMs: Long, offset: Int32, limit: Int32, now: Long, write: WriteOutcome, cap: int): (r: (DeltaResult, SnapshotFile))
    ensures r.0.nextSince == FormatLong(now)
    ensures limit <= 0 ==> r.0.items == [] && r.1 == file
    ensures limit > 0 ==> r.0.items == Page(Reconcile(file, p, sinceMs, cap, now, write).0, offset, limit)
    ensures limit > 0 ==> r.1 == Load(file, p.contacts, write).1
  {
    var nextSince := FormatLong(now);
    if Clamp(limit) <= 0 then (DeltaResult([], nextSince), file)
    else
      var rc := Reconcile(file, p, sinceMs, cap, now, write);
      (DeltaResult(Page(rc.0, offset, limit), nextSince), rc.1)
  }

  /**
   * `computeDelta` as written: both provider queries are capped at
   * `offset + limit` rows (a 32-bit `Int` sum) before reconciliation.
   */
  function ComputeDelta(file: SnapshotFile, p: Provider, sinceMs: Long, offset: Int32, limit: Int32, now: Long, write: WriteOutcome): (r: (DeltaResult, SnapshotFile))
    ensures r.0.nextSince == FormatLong(now)
    ensures limit <= 0 ==> r.0.items == [] && r.1 == file
    ensures limit > 0 ==> r.0.items == Page(Reconcile(file, p, sinceMs, WrapInt(Clamp(offset) + Clamp(limit)), now, write).0, offset, limit)
    ensures |r.0.items| <= Clamp(limit)
    ensures NonIncreasing(r.0.items, SortKey)
    ensures limit > 0 ==> r.1 == Load(file, p.contacts, write).1
  {
    var cap := WrapInt(Clamp(offset) + Clamp(limit));
    var r := DeltaCall(file, p, sinceMs, offset, limit, now, write, cap);
    assert NonIncreasing(r.0.items, SortKey) && |r.0.items| <= Clamp(limit) by {
      if limit > 0 {
        PageKeepsOrder(Reconcile(file, p, sinceMs, cap, now, write).0, offset, limit);
      }
    }
    r
  }

  /** A row count that covers every row the provider holds. */
  function AllRows(p: Provider): nat {
    |p.contacts| + |p.deletedLog|
  }

  /**
   * The corrected delta call: the provider queries are not capped, so every page
   * of a session is a window of the same merged list.
   */
  function ComputeDeltaUncapped(file: SnapshotFile, p: Provider, sinceMs: Long, offset: Int32, limit: Int32, now: Long, write: WriteOutcome): (r: (DeltaResult, SnapshotFile))
    ensures r.0.nextSince == FormatLong(now)
    ensures limit <= 0 ==> r.0.items == [] && r.1 == file
    ensures limit > 0 ==> r.0.items == Window(Reconcile(file, p, sinceMs, AllRows(p), now, write).0, Clamp(offset), Clamp(limit))
    ensures limit > 0 ==> r.1 == Load(file, p.contacts, write).1
  {
    DeltaCall(file, p, sinceMs, offset, limit, now, write, AllRows(p))
  }
}
