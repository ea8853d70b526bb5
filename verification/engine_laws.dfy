/**
 * Properties of the delta call that relate several calls: how the pages of
 * one session fit together, for the corrected call and for the call as written.
 */
module EngineLaws {
  import opened Options
  import opened LongText
  import opened Contacts
  import opened Windows
  import opened SnapshotStore
  import opened Engine
  import LinkedMaps
  import Sorting

  /** With every contact dated, the clock reading does not affect the updated entries. */
  lemma UpdatedDeltasIgnoreClock(snap: Snapshot, updated: seq<Contact>, now1: Long, now2: Long)
    requires forall c :: c in updated ==> c.lastUpdatedAt.Some?
    ensures UpdatedDeltas(snap, updated, now1) == UpdatedDeltas(snap, updated, now2)
  {
    assert forall i :: 0 <= i < |updated| ==> updated[i] in updated;
  }

  /**
   * The merged list a session pages through: the clock only dates undated
   * contacts, and those are only fetched when there is no threshold.
   */
  lemma ReconcileIgnoresClock(file: SnapshotFile, p: Provider, sinceMs: Long, n: int, now1: Long, now2: Long, write: WriteOutcome)
    requires sinceMs > 0
    ensures Reconcile(file, p, sinceMs, n, now1, write) == Reconcile(file, p, sinceMs, n, now2, write)
  {
    var snap := Load(file, p.contacts, write).0;
    UpdatedDeltasIgnoreClock(snap, QueryContactsForDelta(p, sinceMs, n), now1, now2);
  }

  /**
   * Pagination stability of the corrected call: the page at `offset` of size
   * `a`, followed by the page at `offset + a` of size `b` (requested with the
   * snapshot file the first call left behind), is the page at `offset` of
   * size `a + b`. The two requests may read different clocks when a threshold is set.
   */
  lemma UncappedPagesConcatenate(file: SnapshotFile, p: Provider, sinceMs: Long, offset: Int32, a: Int32, b: Int32, now1: Long, now2: Long, write: WriteOutcome)
    requires 0 <= offset && 0 < a && 0 < b && offset + a + b <= MAX_INT
    requires sinceMs > 0 || now1 == now2
    ensures var first := ComputeDeltaUncapped(file, p, sinceMs, offset, a, now1, write);
      var second := ComputeDeltaUncapped(first.1, p, sinceMs, offset + a, b, now2, write);
      var both := ComputeDeltaUncapped(file, p, sinceMs, offset, a + b, now1, write);
      first.0.items + second.0.items == both.0.items && second.1 == first.1
  {
    var first := ComputeDeltaUncapped(file, p, sinceMs, offset, a, now1, write);
    LoadIsStable(file, p.contacts, p.contacts, write);
    assert Load(first.1, p.contacts, write) == Load(file, p.contacts, write);
    var combined := Reconcile(file, p, sinceMs, AllRows(p), now1, write).0;
    assert Reconcile(first.1, p, sinceMs, AllRows(p), now1, write).0 == combined;
    if sinceMs > 0 {
      ReconcileIgnoresClock(first.1, p, sinceMs, AllRows(p), now1, now2, write);
    }
    AdjacentWindows(combined, offset, a, b);
  }

  /** Every row the provider holds, in order, survives a cap that covers all of them. */
  lemma TakeAll<T>(s: seq<T>, n: int)
    requires n >= |s|
    ensures Take(s, n) == s
  {
  }

  /** A cap at or past every contact row fetches the same rows. */
  lemma ContactsQueryCovers(p: Provider, sinceMs: Long, n1: int, n2: int)
    requires n1 >= |p.contacts| && n2 >= |p.contacts|
    ensures QueryContactsForDelta(p, sinceMs, n1) == QueryContactsForDelta(p, sinceMs, n2)
  {
    var rows := if sinceMs > 0 then UpdatedAfter(p.contacts, sinceMs) else p.contacts;
    if n1 > 0 && n2 > 0 {
      TakeAll(rows, n1);
      TakeAll(rows, n2);
    }
  }

  /** A cap at or past every removal row fetches the same removals. */
  lemma RemovalsQueryCovers(p: Provider, sinceMs: Long, n1: int, n2: int)
    requires n1 >= |p.deletedLog| && n2 >= |p.deletedLog|
    ensures QueryDeletedContacts(p, sinceMs, n1) == QueryDeletedContacts(p, sinceMs, n2)
  {
    var rows := RemovedAfter(p.deletedLog, sinceMs);
    if n1 > 0 {
      TakeAll(rows, n1);
    }
    if n2 > 0 {
      TakeAll(rows, n2);
    }
    if rows == [] {
      assert |DedupRemoved(rows)| == |LinkedMaps.Dedup(RemovedIds(rows))| == 0;
    }
  }

  lemma AsWrittenUsesCap(file: SnapshotFile, p: Provider, sinceMs: Long, offset: Int32, limit: Int32, now: Long, write: WriteOutcome)
    ensures ComputeDelta(file, p, sinceMs, offset, limit, now, write)
      == DeltaCall(file, p, sinceMs, offset, limit, now, write, WrapInt(Clamp(offset) + Clamp(limit)))
  {
  }

  lemma UncappedUsesAllRows(file: SnapshotFile, p: Provider, sinceMs: Long, offset: Int32, limit: Int32, now: Long, write: WriteOutcome)
    ensures ComputeDeltaUncapped(file, p, sinceMs, offset, limit, now, write)
      == DeltaCall(file, p, sinceMs, offset, limit, now, write, AllRows(p))
  {
  }

  /**
   * The call as written agrees with the corrected call whenever `offset + limit`
   * reaches past every row the provider holds: the cap then cuts nothing.
   */
  lemma CapIrrelevantWhenLarge(file: SnapshotFile, p: Provider, sinceMs: Long, offset: Int32, limit: Int32, now: Long, write: WriteOutcome)
    requires 0 <= offset && 0 <= limit && offset + limit <= MAX_INT
    requires offset + limit >= AllRows(p)
    ensures ComputeDelta(file, p, sinceMs, offset, limit, now, write) == ComputeDeltaUncapped(file, p, sinceMs, offset, limit, now, write)
  {
    assert Clamp(offset) == offset && Clamp(limit) == limit;
    var cap := WrapInt(Clamp(offset) + Clamp(limit));
    assert cap == offset + limit;
    AsWrittenUsesCap(file, p, sinceMs, offset, limit, now, write);
    UncappedUsesAllRows(file, p, sinceMs, offset, limit, now, write);
    ContactsQueryCovers(p, sinceMs, cap, AllRows(p));
    RemovalsQueryCovers(p, sinceMs, cap, AllRows(p));
    SameRowsSamePage(file, p, sinceMs, offset, limit, now, write, cap, AllRows(p));
  }

  /** Two caps that fetch the same rows give the same call. */
  lemma SameRowsSamePage(file: SnapshotFile, p: Provider, sinceMs: Long, offset: Int32, limit: Int32, now: Long, write: WriteOutcome, cap1: int, cap2: int)
    requires QueryContactsForDelta(p, sinceMs, cap1) == QueryContactsForDelta(p, sinceMs, cap2)
    requires QueryDeletedContacts(p, sinceMs, cap1) == QueryDeletedContacts(p, sinceMs, cap2)
    ensures DeltaCall(file, p, sinceMs, offset, limit, now, write, cap1) == DeltaCall(file, p, sinceMs, offset, limit, now, write, cap2)
  {
    var r1 := Reconcile(file, p, sinceMs, cap1, now, write);
    var r2 := Reconcile(file, p, sinceMs, cap2, now, write);
    assert r1.0 == r2.0 && r1.1 == r2.1;
  }

  // A provider on which the cap of the call as written changes the merged list
  // from one page to the next: contact "10" updated at 50, and two removals
  // newer than it, of which only "3" was in the snapshot.

  const Alice: Contact := Contact("10", "Alice", [], Some(50), None, None)
  const RemovedBob: SnapshotContact := SnapshotContact("3", "Bob", [], Some(20), None, None)
  const Provider1: Provider := Provider([Alice], [DeletedContact("1", 300), DeletedContact("3", 100)])
  const File1: SnapshotFile := Stored(map["3" := RemovedBob])

  const Bob1: DeletedContact := DeletedContact("1", 300)
  const Bob3: DeletedContact := DeletedContact("3", 100)
  const Snap1: Snapshot := map["3" := RemovedBob]

  lemma BothRemovalsAfterOne()
    ensures RemovedAfter(Provider1.deletedLog, 1) == [Bob1, Bob3]
  {
  }

  lemma DedupOne()
    ensures DedupRemoved([Bob1]) == [Bob1]
  {
    DedupSingle(Bob1);
  }

  /** A single removal row is its own de-duplication. */
  lemma DedupSingle(d: DeletedContact)
    ensures DedupRemoved([d]) == [d]
  {
    var r := DedupRemoved([d]);
    assert RemovedIds([d]) == [d.contactId];
    assert LinkedMaps.Dedup([d.contactId]) == [d.contactId] by {
      assert [d.contactId][..0] == [];
    }
    assert |r| == 1 && r[0] in r;
    assert FirstRemoval([d], r[0].contactId) == Some(d) by {
      assert RemovalPairs([d]) == [(d.contactId, d)];
      assert [(d.contactId, d)][..0] == [];
    }
  }

  lemma DedupTwo()
    ensures DedupRemoved([Bob1, Bob3]) == [Bob1, Bob3]
  {
    assert Bob1.contactId != Bob3.contactId by {
      assert Bob1.contactId[0] != Bob3.contactId[0];
    }
    DedupPair(Bob1, Bob3);
  }

  /** Two removal rows for different contacts both survive de-duplication, in order. */
  lemma DedupPair(a: DeletedContact, b: DeletedContact)
    requires a.contactId != b.contactId
    ensures DedupRemoved([a, b]) == [a, b]
  {
    var x, y := a.contactId, b.contactId;
    var r := DedupRemoved([a, b]);
    assert RemovedIds([a, b]) == [x, y];
    assert LinkedMaps.Dedup([x]) == [x] by {
      assert [x][..0] == [];
    }
    assert LinkedMaps.Dedup([x, y]) == [x, y] by {
      assert [x, y][..1] == [x];
    }
    var pairs := RemovalPairs([a, b]);
    assert pairs == [(x, a), (y, b)];
    var first := [(x, a)];
    assert pairs[..1] == first && first[..0] == [];
    assert LinkedMaps.FirstValue(first, x) == Some(a);
    assert LinkedMaps.FirstValue(first, y) == None;
    assert FirstRemoval([a, b], x) == Some(a);
    assert FirstRemoval([a, b], y) == Some(b);
    assert RemovedIds(r) == [x, y];
    assert r[0] in r && r[1] in r;
    assert RemovedIds(r)[0] == r[0].contactId && RemovedIds(r)[1] == r[1].contactId;
  }

  /** A one-row cap fetches only the removal of "1", which has no snapshot entry. */
  lemma SmallCapRemovals()
    ensures QueryDeletedContacts(Provider1, 1, 1) == [Bob1]
    ensures DeletedDeltas(Snap1, {"10"}, [Bob1]) == []
  {
    BothRemovalsAfterOne();
    assert Take([Bob1, Bob3], 1) == [Bob1];
    DedupOne();
  }

  /** A two-row cap fetches both removals; only Bob's becomes a deletion entry. */
  lemma LargerCapRemovals()
    ensures QueryDeletedContacts(Provider1, 1, 2) == [Bob1, Bob3]
    ensures DeletedDeltas(Snap1, {"10"}, [Bob1, Bob3]) == [DeletionDelta(Snap1, Bob3)]
  {
    BothRemovalsAfterOne();
    assert Take([Bob1, Bob3], 2) == [Bob1, Bob3];
    DedupTwo();
    assert !Observable(Snap1, {"10"}, Bob1) && Observable(Snap1, {"10"}, Bob3);
    SecondRemovalObservable(Snap1, {"10"}, Bob1, Bob3);
  }

  /** Of two removals, only the second is observable: one deletion entry, for it. */
  lemma SecondRemovalObservable(snap: Snapshot, updatedIds: set<string>, a: DeletedContact, b: DeletedContact)
    requires !Observable(snap, updatedIds, a) && Observable(snap, updatedIds, b)
    ensures DeletedDeltas(snap, updatedIds, [a, b]) == [DeletionDelta(snap, b)]
  {
    assert [a, b][1..] == [b];
    assert [b][1..] == [];
  }

  lemma AliceFetched(n: int)
    requires n > 0
    ensures QueryContactsForDelta(Provider1, 1, n) == [Alice]
    ensures IdSet([Alice]) == {"10"}
  {
    assert UpdatedAfter([Alice], 1) == [Alice];
  }

  /** With only Alice's entry, the merged list is that entry. */
  lemma SmallCapCandidates()
    ensures Candidates(Snap1, [Alice], [Bob1], 1000) == [UpdatedDelta(Snap1, Alice, 1000)]
  {
    SmallCapRemovals();
    AliceFetched(1);
  }

  /** Bob's deletion, at 100, sorts ahead of Alice's update at 50. */
  lemma BobSortsFirst()
    ensures Sorting.SortByDescending([UpdatedDelta(Snap1, Alice, 1000), DeletionDelta(Snap1, Bob3)], SortKey)
      == [DeletionDelta(Snap1, Bob3), UpdatedDelta(Snap1, Alice, 1000)]
  {
    var aliceDelta := UpdatedDelta(Snap1, Alice, 1000);
    var bobDelta := DeletionDelta(Snap1, Bob3);
    assert SortKey(aliceDelta) == 50 && SortKey(bobDelta) == 100;
    Sorting.SortPair(aliceDelta, bobDelta, SortKey);
  }

  lemma LargerCapCandidates()
    ensures Candidates(Snap1, [Alice], [Bob1, Bob3], 1000) == [DeletionDelta(Snap1, Bob3), UpdatedDelta(Snap1, Alice, 1000)]
  {
    LargerCapRemovals();
    AliceFetched(1);
    OneUpdatedEntry(Snap1, Alice, 1000);
    BobSortsFirst();
    MergedPair(Snap1, [Alice], [Bob1, Bob3], 1000, UpdatedDelta(Snap1, Alice, 1000), DeletionDelta(Snap1, Bob3));
  }

  /** One updated contact gives one entry. */
  lemma OneUpdatedEntry(snap: Snapshot, c: Contact, now: Long)
    ensures UpdatedDeltas(snap, [c], now) == [UpdatedDelta(snap, c, now)]
  {
  }

  /** One updated entry and one deletion entry merge into their sorted pair. */
  lemma MergedPair(snap: Snapshot, updated: seq<Contact>, removed: seq<DeletedContact>, now: Long, x: ContactDelta, y: ContactDelta)
    requires UpdatedDeltas(snap, updated, now) == [x]
    requires DeletedDeltas(snap, IdSet(updated), removed) == [y]
    ensures Candidates(snap, updated, removed, now) == Sorting.SortByDescending([x, y], SortKey)
  {
    CandidatesSorted(snap, updated, removed, now);
    SortOfPair(UpdatedDeltas(snap, updated, now), DeletedDeltas(snap, IdSet(updated), removed), x, y);
  }

  lemma SortOfPair(ups: seq<ContactDelta>, dels: seq<ContactDelta>, x: ContactDelta, y: ContactDelta)
    requires ups == [x] && dels == [y]
    ensures Sorting.SortByDescending(ups + dels, SortKey) == Sorting.SortByDescending([x, y], SortKey)
  {
    assert ups + dels == [x, y];
  }

  lemma SmallCapReconcile()
    ensures Reconcile(File1, Provider1, 1, 1, 1000, Written).0 == [UpdatedDelta(Snap1, Alice, 1000)]
  {
    SnapshotOfFile1();
    SmallCapRemovals();
    AliceFetched(1);
    SmallCapCandidates();
  }

  lemma LargerCapReconcile()
    ensures Reconcile(File1, Provider1, 1, 2, 1000, Written).0 == [DeletionDelta(Snap1, Bob3), UpdatedDelta(Snap1, Alice, 1000)]
  {
    SnapshotOfFile1();
    LargerCapRemovals();
    AliceFetched(2);
    LargerCapCandidates();
  }

  lemma SnapshotOfFile1()
    ensures Load(File1, Provider1.contacts, Written) == (Snap1, File1)
  {
    assert File1 == Stored(Snap1);
  }

  /** Without overflow, the as-written cap is the plain sum. */
  lemma InRangeCap(offset: Int32, limit: Int32)
    requires 0 <= offset && 0 <= limit && offset + limit <= MAX_INT
    ensures WrapInt(Clamp(offset) + Clamp(limit)) == offset + limit
  {
  }

  /** The example's one-entry first page is taken from the list merged under the cap 1. */
  lemma FirstPageCap()
    ensures ComputeDelta(File1, Provider1, 1, 0, 1, 1000, Written).0.items == Page(Reconcile(File1, Provider1, 1, 1, 1000, Written).0, 0, 1)
  {
    InRangeCap(0, 1);
    AsWrittenUsesCap(File1, Provider1, 1, 0, 1, 1000, Written);
  }

  /** The example's one-entry second page is taken from the list merged under the cap 2. */
  lemma SecondPageCap()
    ensures ComputeDelta(File1, Provider1, 1, 1, 1, 1000, Written).0.items == Page(Reconcile(File1, Provider1, 1, 2, 1000, Written).0, 1, 1)
  {
    InRangeCap(1, 1);
    AsWrittenUsesCap(File1, Provider1, 1, 1, 1, 1000, Written);
  }

  /** The example's two-entry first page is taken from the list merged under the cap 2. */
  lemma WidePageCap()
    ensures ComputeDelta(File1, Provider1, 1, 0, 2, 1000, Written).0.items == Page(Reconcile(File1, Provider1, 1, 2, 1000, Written).0, 0, 2)
  {
    InRangeCap(0, 2);
    AsWrittenUsesCap(File1, Provider1, 1, 0, 2, 1000, Written);
  }

  lemma PageOneOfOne()
    ensures ComputeDelta(File1, Provider1, 1, 0, 1, 1000, Written).0.items == [UpdatedDelta(Snap1, Alice, 1000)]
    ensures ComputeDelta(File1, Provider1, 1, 0, 1, 1000, Written).1 == File1
  {
    FirstPageCap();
    SmallCapReconcile();
    OnlyOfOne(UpdatedDelta(Snap1, Alice, 1000));
    SnapshotOfFile1();
  }

  lemma OnlyOfOne(x: ContactDelta)
    ensures Page([x], 0, 1) == [x]
  {
  }

  lemma PageTwoOfOne()
    ensures ComputeDelta(File1, Provider1, 1, 1, 1, 1000, Written).0.items == [UpdatedDelta(Snap1, Alice, 1000)]
  {
    SecondPageCap();
    LargerCapReconcile();
    SecondOfTwo(DeletionDelta(Snap1, Bob3), UpdatedDelta(Snap1, Alice, 1000));
  }

  lemma SecondOfTwo(x: ContactDelta, y: ContactDelta)
    ensures Page([x, y], 1, 1) == [y]
  {
  }

  lemma BobIsNotAlice()
    ensures DeletionDelta(Snap1, Bob3) != UpdatedDelta(Snap1, Alice, 1000)
  {
    assert DeletionDelta(Snap1, Bob3).isDeleted && !UpdatedDelta(Snap1, Alice, 1000).isDeleted;
  }

  /** One entry served twice is not the two distinct entries of the wider page. */
  lemma RepeatedEntry(first: seq<ContactDelta>, second: seq<ContactDelta>, both: seq<ContactDelta>, a: ContactDelta, b: ContactDelta)
    requires first == [a] && second == [a] && both == [b, a] && b != a
    ensures first == second && |both| == 2 && first + second != both
  {
    assert (first + second)[0] == a;
  }

  lemma PageOfTwo()
    ensures ComputeDelta(File1, Provider1, 1, 0, 2, 1000, Written).0.items
      == [DeletionDelta(Snap1, Bob3), UpdatedDelta(Snap1, Alice, 1000)]
  {
    WidePageCap();
    LargerCapReconcile();
    BothOfTwo(DeletionDelta(Snap1, Bob3), UpdatedDelta(Snap1, Alice, 1000));
  }

  lemma BothOfTwo(x: ContactDelta, y: ContactDelta)
    ensures Page([x, y], 0, 2) == [x, y]
  {
  }

  /**
   * As written, a client paging one entry at a time is served Alice's entry
   * twice and never Bob's deletion, although a two-entry page holds both.
   */
  lemma AsWrittenPagesRepeat()
    ensures var first := ComputeDelta(File1, Provider1, 1, 0, 1, 1000, Written);
      var second := ComputeDelta(first.1, Provider1, 1, 1, 1, 1000, Written);
      var both := ComputeDelta(File1, Provider1, 1, 0, 2, 1000, Written);
      && first.0.items == second.0.items
      && |both.0.items| == 2
      && first.0.items + second.0.items != both.0.items
  {
    var first := ComputeDelta(File1, Provider1, 1, 0, 1, 1000, Written);
    var second := ComputeDelta(first.1, Provider1, 1, 1, 1, 1000, Written);
    var both := ComputeDelta(File1, Provider1, 1, 0, 2, 1000, Written);
    PageOneOfOne();
    PageTwoOfOne();
    PageOfTwo();
    BobIsNotAlice();
    RepeatedEntry(first.0.items, second.0.items, both.0.items, UpdatedDelta(Snap1, Alice, 1000), DeletionDelta(Snap1, Bob3));
  }
}
