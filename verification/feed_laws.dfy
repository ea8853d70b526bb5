/**
 * How the merged feed of one delta call classifies contacts: every observable
 * removal appears exactly once as a deletion, a resurrected contact never
 * appears as deleted, and among entries with equal timestamps the updated
 * ones come before the deleted ones.
 */
module FeedLaws {
  import opened LongText
  import opened Contacts
  import opened Sorting
  import opened SnapshotStore
  import opened Engine

  /** An element of a sequence whose entries carry distinct ids occurs exactly once. */
  lemma {:induction false} OccursOnce(s: seq<ContactDelta>, x: ContactDelta)
    requires DistinctIds(s) && x in s
    ensures multiset(s)[x] == 1
  {
    if s[0] == x {
      assert forall y :: y in s[1..] ==> y.id != x.id by {
        forall y | y in s[1..]
          ensures y.id != x.id
        {
          var k :| 0 <= k < |s[1..]| && s[1..][k] == y;
          assert s[k + 1] == y;
        }
      }
      assert x !in s[1..];
      assert multiset(s[1..])[x] == 0;
    } else {
      assert x in s[1..];
      assert DistinctIds(s[1..]) by {
        forall i, j | 0 <= i < j < |s[1..]|
          ensures s[1..][i].id != s[1..][j].id
        {
          assert s[1..][i] == s[i + 1] && s[1..][j] == s[j + 1];
        }
      }
      OccursOnce(s[1..], x);
    }
    assert s == [s[0]] + s[1..];
  }

  /** Every updated entry names one of the updated contacts. */
  lemma UpdatedEntryOrigin(snap: Snapshot, updated: seq<Contact>, now: Long, x: ContactDelta)
    requires x in UpdatedDeltas(snap, updated, now)
    ensures x.id in IdSet(updated) && !x.isDeleted
    ensures x.changeType == Created <==> x.id !in snap
    ensures x.changeType == Updated <==> x.id in snap
  {
    var ups := UpdatedDeltas(snap, updated, now);
    var i :| 0 <= i < |ups| && ups[i] == x;
    assert updated[i] in updated;
  }

  /**
   * Classification completeness: a removal of a contact that was in the
   * snapshot and is not among the updated contacts yields exactly one entry,
   * its deletion, and no other entry names that contact.
   */
  lemma ClassificationCompleteness(snap: Snapshot, updated: seq<Contact>, removed: seq<DeletedContact>, now: Long, d: DeletedContact)
    requires forall i, j :: 0 <= i < j < |removed| ==> removed[i].contactId != removed[j].contactId
    requires d in removed && d.contactId in snap && d.contactId !in IdSet(updated)
    ensures multiset(Candidates(snap, updated, removed, now))[DeletionDelta(snap, d)] == 1
    ensures forall x :: x in Candidates(snap, updated, removed, now) && x.id == d.contactId ==> x == DeletionDelta(snap, d)
  {
    DeletionOccursOnce(snap, updated, removed, now, d);
    DeletionIsAlone(snap, updated, removed, now, d);
  }

  lemma DeletionOccursOnce(snap: Snapshot, updated: seq<Contact>, removed: seq<DeletedContact>, now: Long, d: DeletedContact)
    requires forall i, j :: 0 <= i < j < |removed| ==> removed[i].contactId != removed[j].contactId
    requires d in removed && d.contactId in snap && d.contactId !in IdSet(updated)
    ensures multiset(Candidates(snap, updated, removed, now))[DeletionDelta(snap, d)] == 1
  {
    var ups := UpdatedDeltas(snap, updated, now);
    var dels := DeletedDeltas(snap, IdSet(updated), removed);
    var e := DeletionDelta(snap, d);
    assert Observable(snap, IdSet(updated), d);
    assert e !in ups by {
      if e in ups {
        UpdatedEntryOrigin(snap, updated, now, e);
      }
    }
    DeletedDeltasDistinct(snap, IdSet(updated), removed);
    CountInUnion(Candidates(snap, updated, removed, now), ups, dels, e);
  }

  /** An element absent from `ups` and in `dels`, whose ids are distinct, occurs once in a permutation of `ups + dels`. */
  lemma CountInUnion(r: seq<ContactDelta>, ups: seq<ContactDelta>, dels: seq<ContactDelta>, e: ContactDelta)
    requires multiset(r) == multiset(ups + dels)
    requires e !in ups && e in dels && DistinctIds(dels)
    ensures multiset(r)[e] == 1
  {
    OccursOnce(dels, e);
    assert multiset(ups + dels)[e] == multiset(ups)[e] + multiset(dels)[e];
  }

  lemma SameIdSameRemoval(removed: seq<DeletedContact>, d: DeletedContact, d': DeletedContact)
    requires forall i, j :: 0 <= i < j < |removed| ==> removed[i].contactId != removed[j].contactId
    requires d in removed && d' in removed && d.contactId == d'.contactId
    ensures d == d'
  {
    var i :| 0 <= i < |removed| && removed[i] == d';
    var j :| 0 <= j < |removed| && removed[j] == d;
    assert i == j;
  }

  lemma DeletionIsAlone(snap: Snapshot, updated: seq<Contact>, removed: seq<DeletedContact>, now: Long, d: DeletedContact)
    requires forall i, j :: 0 <= i < j < |removed| ==> removed[i].contactId != removed[j].contactId
    requires d in removed && d.contactId in snap && d.contactId !in IdSet(updated)
    ensures forall x :: x in Candidates(snap, updated, removed, now) && x.id == d.contactId ==> x == DeletionDelta(snap, d)
  {
    var ups := UpdatedDeltas(snap, updated, now);
    var dels := DeletedDeltas(snap, IdSet(updated), removed);
    var r := Candidates(snap, updated, removed, now);
    forall x | x in r && x.id == d.contactId
      ensures x == DeletionDelta(snap, d)
    {
      PermutationMembers(r, ups + dels);
      if x in ups {
        UpdatedEntryOrigin(snap, updated, now, x);
      } else {
        var d' :| d' in removed && Observable(snap, IdSet(updated), d') && x == DeletionDelta(snap, d');
        SameIdSameRemoval(removed, d, d');
      }
    }
  }

  /**
   * Resurrection precedence: a contact among the updated ones is never reported
   * as deleted, whatever the removal feed holds; every entry naming it is
   * CREATED when the snapshot lacks it and UPDATED otherwise.
   */
  lemma ResurrectionPrecedence(snap: Snapshot, updated: seq<Contact>, removed: seq<DeletedContact>, now: Long, c: Contact)
    requires c in updated
    ensures UpdatedDelta(snap, c, now) in Candidates(snap, updated, removed, now)
    ensures forall x :: x in Candidates(snap, updated, removed, now) && x.id == c.id ==>
      !x.isDeleted && (x.changeType == Created <==> c.id !in snap) && (x.changeType == Updated <==> c.id in snap)
  {
    var ups := UpdatedDeltas(snap, updated, now);
    var dels := DeletedDeltas(snap, IdSet(updated), removed);
    var r := Candidates(snap, updated, removed, now);
    var i :| 0 <= i < |updated| && updated[i] == c;
    assert ups[i] == UpdatedDelta(snap, c, now);
    PermutationMembers(r, ups + dels);
    assert c.id in IdSet(updated);
    forall x | x in r && x.id == c.id
      ensures !x.isDeleted && (x.changeType == Created <==> c.id !in snap) && (x.changeType == Updated <==> c.id in snap)
    {
      PermutationMembers(r, ups + dels);
      if x in ups {
        UpdatedEntryOrigin(snap, updated, now, x);
      }
    }
  }

  lemma {:induction false} TiesMembers(s: seq<ContactDelta>, t: int)
    ensures forall x :: x in Ties(s, SortKey, t) ==> x in s && SortKey(x) == t
  {
    if |s| > 0 {
      TiesMembers(s[1..], t);
    }
  }

  /**
   * The stable sort keeps, among entries with equal timestamps, every updated
   * entry ahead of every deleted one.
   */
  lemma UpdatedBeforeDeletedOnTies(snap: Snapshot, updated: seq<Contact>, removed: seq<DeletedContact>, now: Long, t: int)
    ensures var ties := Ties(Candidates(snap, updated, removed, now), SortKey, t);
      forall i, j :: 0 <= i < j < |ties| && ties[i].isDeleted ==> ties[j].isDeleted
  {
    var ups := UpdatedDeltas(snap, updated, now);
    var dels := DeletedDeltas(snap, IdSet(updated), removed);
    var tu := Ties(ups, SortKey, t);
    var td := Ties(dels, SortKey, t);
    TiesMembers(ups, t);
    TiesMembers(dels, t);
    forall x | x in tu
      ensures !x.isDeleted
    {
      UpdatedEntryOrigin(snap, updated, now, x);
    }
    UpdatedThenDeleted(Ties(Candidates(snap, updated, removed, now), SortKey, t), tu, td);
  }

  /** A list of live entries followed by a list of deleted ones has no live entry after a deleted one. */
  lemma UpdatedThenDeleted(ties: seq<ContactDelta>, tu: seq<ContactDelta>, td: seq<ContactDelta>)
    requires ties == tu + td
    requires forall x :: x in tu ==> !x.isDeleted
    requires forall x :: x in td ==> x.isDeleted
    ensures forall i, j :: 0 <= i < j < |ties| && ties[i].isDeleted ==> ties[j].isDeleted
  {
    assert forall k :: 0 <= k < |tu| ==> ties[k] == tu[k] && tu[k] in tu;
    assert forall k :: |tu| <= k < |ties| ==> ties[k] == td[k - |tu|] && td[k - |tu|] in td;
  }
}
