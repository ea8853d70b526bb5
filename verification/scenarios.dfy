/**
 * Worked examples of the delta engine on concrete contacts: Alice gains a
 * second number and Bob is new, and a variant of Alice's change in which the
 * platform supplies no phone-entry ids.
 */
module Scenarios {
  import opened Options
  import opened Contacts
  import opened SnapshotStore
  import opened Engine
  import PhoneDiff
  import LinkedMaps
  import Sorting
  import LongText

  const P555: PhoneEntry := PhoneEntry(Some("p1"), "555")
  const P556: PhoneEntry := PhoneEntry(Some("p2"), "556")
  const P777: PhoneEntry := PhoneEntry(Some("p3"), "777")

  const AliceNow: Contact := Contact("A", "Alice", [P555, P556], Some(200), None, None)
  const BobNow: Contact := Contact("B", "Bob", [P777], Some(100), None, None)
  const AliceBefore: SnapshotContact := SnapshotContact("A", "Alice", [P555], Some(50), None, None)
  const Before: Snapshot := map["A" := AliceBefore]

  lemma CollapseOne(a: PhoneEntry)
    ensures PhoneDiff.Collapse([a]) == [(a.id, a)]
  {
    var kvs := [(a.id, a)];
    assert PhoneDiff.Keyed([a]) == kvs;
    assert kvs[..0] == [];
    assert LinkedMaps.AssociateLast(kvs) == LinkedMaps.Put([], a.id, a);
  }

  lemma CollapseTwo(a: PhoneEntry, b: PhoneEntry)
    ensures PhoneDiff.Collapse([a, b]) == if a.id == b.id then [(b.id, b)] else [(a.id, a), (b.id, b)]
  {
    var kvs := [(a.id, a), (b.id, b)];
    assert PhoneDiff.Keyed([a, b]) == kvs;
    assert kvs[..1] == [(a.id, a)];
    assert [(a.id, a)][..0] == [];
    assert LinkedMaps.AssociateLast([(a.id, a)]) == [(a.id, a)];
    assert LinkedMaps.AssociateLast(kvs) == LinkedMaps.Put([(a.id, a)], b.id, b);
    assert [(a.id, a)][1..] == [];
  }

  /** Alice keeps "555" under the same entry id and gains "556". */
  lemma AliceDiff()
    ensures PhoneDiff.Diff(Some([P555, P556]), Some([P555])) == PhoneNumberChanges(["556"], [], [])
  {
    assert P555.id != P556.id by {
      assert P555.id.value[1] != P556.id.value[1];
    }
    KeptAndAdded(P555, P556);
  }

  /** An entry kept under its id, plus a new entry with a new id: only the new number is created. */
  lemma KeptAndAdded(a: PhoneEntry, b: PhoneEntry)
    requires a.id.Some? && b.id.Some? && a.id != b.id
    ensures PhoneDiff.Diff(Some([a, b]), Some([a])) == PhoneNumberChanges([b.number], [], [])
  {
    CollapseTwo(a, b);
    CollapseOne(a);
    var cur := [(a.id, a), (b.id, b)];
    var prev := [(a.id, a)];
    KeptEntryUnchanged(a, cur, prev);
    AddedEntryCreated(a, b, cur, prev);
  }

  lemma KeptEntryUnchanged(a: PhoneEntry, cur: PhoneDiff.PhoneMap, prev: PhoneDiff.PhoneMap)
    requires a.id.Some? && |cur| > 0 && cur[0] == (a.id, a) && prev == [(a.id, a)]
    ensures PhoneDiff.UpdatedPairs(prev, Some(cur)) == []
    ensures PhoneDiff.DeletedNumbers(prev, Some(cur)) == []
  {
    assert LinkedMaps.Get(cur, a.id) == Some(a);
    assert prev[1..] == [];
  }

  lemma AddedEntryCreated(a: PhoneEntry, b: PhoneEntry, cur: PhoneDiff.PhoneMap, prev: PhoneDiff.PhoneMap)
    requires a.id.Some? && b.id.Some? && a.id != b.id
    requires cur == [(a.id, a), (b.id, b)] && prev == [(a.id, a)]
    ensures PhoneDiff.CreatedNumbers(cur, Some(prev), Some([a])) == [b.number]
  {
    assert prev[1..] == [] && cur[1..] == [(b.id, b)] && cur[1..][1..] == [];
    assert LinkedMaps.Get(prev, a.id) == Some(a);
    assert LinkedMaps.Get(prev, b.id) == None;
    assert PhoneDiff.CreatedNumbers(cur[1..], Some(prev), Some([a])) == [b.number];
  }

  /** Bob has no snapshot entry: his one number is created. */
  lemma BobDiff()
    ensures PhoneDiff.Diff(Some([P777]), None) == PhoneNumberChanges(["777"], [], [])
  {
    CollapseOne(P777);
    var cur := [(P777.id, P777)];
    assert cur[1..] == [];
    assert PhoneDiff.CreatedNumbers(cur, None, None) == ["777"];
  }

  lemma AliceEntry()
    ensures var a := UpdatedDelta(Before, AliceNow, 1000);
      && a.id == "A" && a.changeType == Updated && a.sortTimestamp == 200
      && a.phoneNumberChanges == PhoneNumberChanges(["556"], [], [])
      && a.previous.Some? && a.previous.value.phoneNumbers == ["555"]
  {
    AliceDiff();
    assert Numbers([P555]) == ["555"];
  }

  lemma BobEntry()
    ensures var b := UpdatedDelta(Before, BobNow, 1000);
      && b.id == "B" && b.changeType == Created && b.previous.None? && b.sortTimestamp == 100
      && b.phoneNumberChanges == PhoneNumberChanges(["777"], [], [])
  {
    BobDiff();
  }

  lemma AliceSortsFirst()
    ensures Sorting.SortByDescending([UpdatedDelta(Before, AliceNow, 1000), UpdatedDelta(Before, BobNow, 1000)], SortKey)
      == [UpdatedDelta(Before, AliceNow, 1000), UpdatedDelta(Before, BobNow, 1000)]
  {
    var a := UpdatedDelta(Before, AliceNow, 1000);
    var b := UpdatedDelta(Before, BobNow, 1000);
    assert SortKey(a) == 200 && SortKey(b) == 100;
    Sorting.SortPair(a, b, SortKey);
  }

  /** Nothing was removed, and Alice's newer update sorts ahead of Bob's creation. */
  lemma EndToEndOrder()
    ensures Candidates(Before, [AliceNow, BobNow], [], 1000)
      == [UpdatedDelta(Before, AliceNow, 1000), UpdatedDelta(Before, BobNow, 1000)]
  {
    CandidatesSorted(Before, [AliceNow, BobNow], [], 1000);
    BothUpdated();
    NothingDeleted();
    NothingAppended(UpdatedDeltas(Before, [AliceNow, BobNow], 1000), DeletedDeltas(Before, IdSet([AliceNow, BobNow]), []));
    AliceSortsFirst();
  }

  lemma BothUpdated()
    ensures UpdatedDeltas(Before, [AliceNow, BobNow], 1000)
      == [UpdatedDelta(Before, AliceNow, 1000), UpdatedDelta(Before, BobNow, 1000)]
  {
    UpdatedPair(Before, AliceNow, BobNow, 1000);
  }

  lemma UpdatedPair(snap: Snapshot, c1: Contact, c2: Contact, now: LongText.Long)
    ensures UpdatedDeltas(snap, [c1, c2], now) == [UpdatedDelta(snap, c1, now), UpdatedDelta(snap, c2, now)]
  {
    var r := UpdatedDeltas(snap, [c1, c2], now);
    PairOf(r, UpdatedDelta(snap, c1, now), UpdatedDelta(snap, c2, now));
  }

  lemma PairOf<T>(r: seq<T>, x: T, y: T)
    requires |r| == 2 && r[0] == x && r[1] == y
    ensures r == [x, y]
  {
  }

  lemma NothingAppended<T>(r: seq<T>, s: seq<T>)
    requires s == []
    ensures r + s == r
  {
  }

  lemma NothingDeleted()
    ensures DeletedDeltas(Before, IdSet([AliceNow, BobNow]), []) == []
  {
  }

  /**
   * Alice, updated at 200, comes first as UPDATED with "556" created and her
   * previous state attached; Bob, created at 100, follows with no previous state.
   */
  lemma EndToEnd()
    ensures var r := Candidates(Before, [AliceNow, BobNow], [], 1000);
      && |r| == 2
      && r[0].id == "A" && r[0].changeType == Updated
      && r[0].phoneNumberChanges == PhoneNumberChanges(["556"], [], [])
      && r[0].previous.Some? && r[0].previous.value.phoneNumbers == ["555"]
      && r[1].id == "B" && r[1].changeType == Created && r[1].previous.None?
      && r[1].phoneNumberChanges == PhoneNumberChanges(["777"], [], [])
  {
    EndToEndOrder();
    AliceEntry();
    BobEntry();
  }

  const N555: PhoneEntry := PhoneEntry(None, "555")
  const N556: PhoneEntry := PhoneEntry(None, "556")

  /**
   * Without entry ids both sides collapse to their last entry, and a previous
   * entry without an id is never correlated: Alice's kept "555" is reported
   * deleted while "556" is reported created.
   */
  lemma AliceDiffWithoutIds()
    ensures PhoneDiff.Diff(Some([N555, N556]), Some([N555])) == PhoneNumberChanges(["556"], [], ["555"])
  {
    assert N555.number != N556.number by {
      assert N555.number[2] != N556.number[2];
    }
    ReplacedWithoutIds(N555, N556);
  }

  /** Without ids, a kept entry and an added one: the kept number is deleted and the added one created. */
  lemma ReplacedWithoutIds(a: PhoneEntry, b: PhoneEntry)
    requires a.id.None? && b.id.None? && a.number != b.number
    ensures PhoneDiff.Diff(Some([a, b]), Some([a])) == PhoneNumberChanges([b.number], [], [a.number])
  {
    CollapseTwo(a, b);
    CollapseOne(a);
    var cur := [(b.id, b)];
    var prev := [(a.id, a)];
    UncorrelatedPrevious(a, cur, prev);
    UnmatchedCurrent(a, b, cur, prev);
  }

  lemma UncorrelatedPrevious(a: PhoneEntry, cur: PhoneDiff.PhoneMap, prev: PhoneDiff.PhoneMap)
    requires a.id.None? && prev == [(a.id, a)]
    ensures PhoneDiff.UpdatedPairs(prev, Some(cur)) == []
    ensures PhoneDiff.DeletedNumbers(prev, Some(cur)) == [a.number]
  {
    assert prev[1..] == [];
  }

  lemma UnmatchedCurrent(a: PhoneEntry, b: PhoneEntry, cur: PhoneDiff.PhoneMap, prev: PhoneDiff.PhoneMap)
    requires b.id.None? && a.number != b.number && cur == [(b.id, b)]
    ensures PhoneDiff.CreatedNumbers(cur, Some(prev), Some([a])) == [b.number]
  {
    assert cur[1..] == [];
    assert Numbers([a]) == [a.number];
  }
}
