/**
 * The Android native module's entry points around the delta engine: the
 * full-versus-delta routing of `getUpdatedSince` and `getUpdatedFromPersisted`,
 * and the persisted checkpoint read by `getPersistedSince` and written by
 * `commitPersisted`.
 */
module NativeModule {
  import opened Options
  import opened LongText
  import opened Contacts
  import opened Windows
  import opened SnapshotStore
  import opened Engine
  import FeedLaws
  import LinkedMaps

  /**
   * The module's persistent state: the stored checkpoint (the preference
   * "since", read with default 0) and the snapshot file.
   */
  datatype NativeState = NativeState(since: Long, snapshot: SnapshotFile)

  /** A fresh install: no stored checkpoint and no snapshot file. */
  const Fresh: NativeState := NativeState(0, Absent)

  /** The map a paging call resolves with: a full page (mode "full") or a delta page (mode "delta"). */
  datatype Response =
    | FullPage(contacts: seq<Contact>, totalContacts: int, nextSince: string)
    | DeltaPage(deltas: seq<ContactDelta>, nextSince: string)

  /**
   * Full mode: the page `[offset, offset + limit)` of every contact in the
   * provider's order, the number of contacts, and the clock reading as the
   * proposed checkpoint.
   */
  function FullMode(p: Provider, offset: Int32, limit: Int32, now: Long): (r: Response)
    ensures r.FullPage? && r.totalContacts == |p.contacts| && r.nextSince == FormatLong(now)
    ensures |r.contacts| == if Clamp(offset) >= |p.contacts| then 0 else Min(Clamp(limit), |p.contacts| - Clamp(offset))
    ensures forall i :: 0 <= i < |r.contacts| ==> r.contacts[i] == p.contacts[Clamp(offset) + i]
  {
    var off := Clamp(offset);
    var lim := Clamp(limit);
    WindowElements(p.contacts, off, lim);
    FullPage(if lim <= 0 || off >= |p.contacts| then [] else Window(p.contacts, off, lim), |p.contacts|, FormatLong(now))
  }

  /**
   * Delta mode: `computeDelta` against `sinceMs`, with both provider queries
   * capped at `offset + limit` rows; only the snapshot file can change.
   */
  function DeltaMode(st: NativeState, p: Provider, sinceMs: Long, offset: Int32, limit: Int32, now: Long, write: WriteOutcome): (r: (Response, NativeState))
    ensures r.0.DeltaPage? && r.0.nextSince == FormatLong(now)
    ensures r.1.since == st.since
    ensures r.0.deltas == ComputeDelta(st.snapshot, p, sinceMs, offset, limit, now, write).0.items
    ensures r.1.snapshot == ComputeDelta(st.snapshot, p, sinceMs, offset, limit, now, write).1
    ensures limit <= 0 ==> r.0.deltas == [] && r.1 == st
    ensures limit > 0 ==> r.1.snapshot == Load(st.snapshot, p.contacts, write).1
  {
    var res := ComputeDelta(st.snapshot, p, sinceMs, offset, limit, now, write);
    (DeltaPage(res.0.items, res.0.nextSince), st.(snapshot := res.1))
  }

  /**
   * `getUpdatedSince`: a blank token asks for full mode; any other token asks
   * for delta mode, with an unparsable token read as threshold 0. The stored
   * checkpoint is never changed.
   */
  function GetUpdatedSince(st: NativeState, p: Provider, since: string, offset: Int32, limit: Int32, now: Long, write: WriteOutcome): (r: (Response, NativeState))
    ensures IsBlank(since) ==> r.0 == FullMode(p, offset, limit, now) && r.1 == st
    ensures !IsBlank(since) ==> r.0.DeltaPage?
    ensures !IsBlank(since) ==>
      var res := ComputeDelta(st.snapshot, p, ParseLong(since).GetOr(0), offset, limit, now, write);
      r.0.deltas == res.0.items && r.1.snapshot == res.1
    ensures r.1.since == st.since
    ensures r.0.nextSince == FormatLong(now)
  {
    if IsBlank(since) then (FullMode(p, offset, limit, now), st)
    else DeltaMode(st, p, ParseLong(since).GetOr(0), offset, limit, now, write)
  }

  /**
   * `getPersistedSince`: the empty string while no positive checkpoint is
   * stored, else the checkpoint's decimal text, which parses back to it.
   */
  function GetPersistedSince(st: NativeState): (r: string)
    ensures r == "" <==> st.since <= 0
    ensures st.since > 0 ==> ParseLong(r) == Some(st.since)
  {
    if st.since <= 0 then ""
    else
      ParseFormatRoundTrip(st.since);
      FormatLong(st.since)
  }

  /** `getUpdatedFromPersisted`: full mode while no positive checkpoint is stored, else delta mode against it. */
  function GetUpdatedFromPersisted(st: NativeState, p: Provider, offset: Int32, limit: Int32, now: Long, write: WriteOutcome): (r: (Response, NativeState))
    ensures st.since <= 0 ==> r.0 == FullMode(p, offset, limit, now) && r.1 == st
    ensures st.since > 0 ==> r.0.DeltaPage?
    ensures st.since > 0 ==>
      var res := ComputeDelta(st.snapshot, p, st.since, offset, limit, now, write);
      r.0.deltas == res.0.items && r.1.snapshot == res.1
    ensures r.1.since == st.since
    ensures r.0.nextSince == FormatLong(now)
  {
    if st.since <= 0 then (FullMode(p, offset, limit, now), st)
    else DeltaMode(st, p, st.since, offset, limit, now, write)
  }

  /**
   * `commitPersisted`: a token that is not a 64-bit decimal integer changes
   * nothing; a valid one is stored and the snapshot is rebuilt from every
   * current contact, with the file as the write left it.
   */
  function CommitPersisted(st: NativeState, p: Provider, nextSince: string, write: WriteOutcome): (r: NativeState)
    ensures ParseLong(nextSince).None? ==> r == st
    ensures ParseLong(nextSince).Some? ==> r.since == ParseLong(nextSince).value
    ensures ParseLong(nextSince).Some? && write.Written? ==> r.snapshot == Stored(CaptureAll(p.contacts))
    ensures ParseLong(nextSince).Some? && write.NotOpened? ==> r.snapshot == st.snapshot
    ensures ParseLong(nextSince).Some? && write.Truncated? ==> r.snapshot == Unreadable
  {
    match ParseLong(nextSince)
    case None => st
    case Some(v) => NativeState(v, Rebuild(st.snapshot, p.contacts, write))
  }

  /** Paging from the stored checkpoint is paging from the token `getPersistedSince` hands out. */
  lemma PersistedMatchesExplicit(st: NativeState, p: Provider, offset: Int32, limit: Int32, now: Long, write: WriteOutcome)
    ensures GetUpdatedFromPersisted(st, p, offset, limit, now, write)
      == GetUpdatedSince(st, p, GetPersistedSince(st), offset, limit, now, write)
  {
    if st.since > 0 {
      FormattedNotBlank(st.since);
      ParseFormatRoundTrip(st.since);
    }
  }

  /**
   * Committing a proposed checkpoint and reading it back: a positive one comes
   * back as the same text, and a non-positive one reads back as "" (so the next
   * persisted call runs in full mode).
   */
  lemma CommitThenRead(st: NativeState, p: Provider, v: Long, write: WriteOutcome)
    ensures var st' := CommitPersisted(st, p, FormatLong(v), write);
      && st'.since == v
      && GetPersistedSince(st') == (if v <= 0 then "" else FormatLong(v))
  {
    ParseFormatRoundTrip(v);
  }

  /** A rejected commit is invisible to every later call. */
  lemma RejectedCommitIsNoOp(st: NativeState, p: Provider, token: string, write: WriteOutcome)
    requires IsBlank(token)
    ensures CommitPersisted(st, p, token, write) == st
  {
    BlankNeverParses(token);
  }

  /**
   * After a successful commit, the next delta call diffs against a snapshot of
   * every contact as it was at commit time, not the one before the commit.
   */
  lemma CommitRebuilds(st: NativeState, p: Provider, token: string, offset: Int32, limit: Int32, now: Long)
    requires ParseLong(token).Some? && limit > 0
    ensures var st' := CommitPersisted(st, p, token, Written);
      && Load(st'.snapshot, p.contacts, Written).0 == CaptureAll(p.contacts)
      && GetUpdatedFromPersisted(st', p, offset, limit, now, Written).1 == st'
  {
  }

  /**
   * A token that is not blank but does not parse is read as threshold 0: the
   * page is taken from every contact and holds no deletions.
   */
  lemma UnparsableTokenReportsNoDeletions(st: NativeState, p: Provider, since: string, offset: Int32, limit: Int32, now: Long, write: WriteOutcome)
    requires !IsBlank(since) && ParseLong(since).None?
    ensures forall x :: x in GetUpdatedSince(st, p, since, offset, limit, now, write).0.deltas ==> !x.isDeleted
  {
    UnparsableIsZero(st, p, since, offset, limit, now, write);
    ZeroThresholdLive(st.snapshot, p, offset, limit, now, write);
  }

  /** A token that is not blank but does not parse asks for the delta call at threshold 0. */
  lemma UnparsableIsZero(st: NativeState, p: Provider, since: string, offset: Int32, limit: Int32, now: Long, write: WriteOutcome)
    requires !IsBlank(since) && ParseLong(since).None?
    ensures GetUpdatedSince(st, p, since, offset, limit, now, write).0.deltas == ComputeDelta(st.snapshot, p, 0, offset, limit, now, write).0.items
  {
  }

  /** At threshold 0 the delta call reports no deletion. */
  lemma ZeroThresholdLive(file: SnapshotFile, p: Provider, offset: Int32, limit: Int32, now: Long, write: WriteOutcome)
    ensures forall x :: x in ComputeDelta(file, p, 0, offset, limit, now, write).0.items ==> !x.isDeleted
  {
    if limit > 0 {
      LivePageAtAnyCap(file, p, WrapInt(Clamp(offset) + Clamp(limit)), offset, limit, now, write);
    }
  }

  /** Without a threshold, a page of the merged list reports no deletion, whatever the cap. */
  lemma LivePageAtAnyCap(file: SnapshotFile, p: Provider, cap: int, offset: Int32, limit: Int32, now: Long, write: WriteOutcome)
    ensures forall x :: x in Page(Reconcile(file, p, 0, cap, now, write).0, offset, limit) ==> !x.isDeleted
  {
    NoThresholdNoDeletions(file, p, cap, now, write);
    LivePage(Reconcile(file, p, 0, cap, now, write).0, offset, limit);
  }

  /** A page of a list without deletion entries has none either. */
  lemma LivePage(combined: seq<ContactDelta>, offset: Int32, limit: Int32)
    requires forall x :: x in combined ==> !x.isDeleted
    ensures forall x :: x in Page(combined, offset, limit) ==> !x.isDeleted
  {
    var items := Page(combined, offset, limit);
    forall x | x in items
      ensures !x.isDeleted
    {
      var i :| 0 <= i < |items| && items[i] == x;
      assert x in combined;
    }
  }

  /** Without a threshold no removal is fetched, so the merged list holds no deletion entries, whatever the cap. */
  lemma NoThresholdNoDeletions(file: SnapshotFile, p: Provider, cap: int, now: Long, write: WriteOutcome)
    ensures forall x :: x in Reconcile(file, p, 0, cap, now, write).0 ==> !x.isDeleted
  {
    var snap := Load(file, p.contacts, write).0;
    var updated := QueryContactsForDelta(p, 0, cap);
    var ups := UpdatedDeltas(snap, updated, now);
    assert DeletedDeltas(snap, IdSet(updated), []) == [];
    assert ups + [] == ups;
    forall x | x in Reconcile(file, p, 0, cap, now, write).0
      ensures !x.isDeleted
    {
      assert x in multiset(ups);
      FeedLaws.UpdatedEntryOrigin(snap, updated, now, x);
    }
  }

  /** No contact was updated, and no contact removed, after `t`. */
  predicate QuietAfter(p: Provider, t: int) {
    && (forall c :: c in p.contacts ==> c.lastUpdatedAt.None? || c.lastUpdatedAt.value <= t)
    && (forall d :: d in p.deletedLog ==> d.deletedAt <= t)
  }

  /**
   * With a positive checkpoint and nothing updated or removed after it, a
   * delta page is empty whatever the snapshot holds.
   */
  lemma QuietProviderEmptyFeed(st: NativeState, p: Provider, offset: Int32, limit: Int32, now: Long, write: WriteOutcome)
    requires st.since > 0 && QuietAfter(p, st.since)
    ensures GetUpdatedFromPersisted(st, p, offset, limit, now, write).0 == DeltaPage([], FormatLong(now))
  {
    QuietDeltaCall(st.snapshot, p, st.since, offset, limit, now, write);
  }

  /** Nothing changed after the threshold: the delta call returns no entries. */
  lemma QuietDeltaCall(file: SnapshotFile, p: Provider, t: Long, offset: Int32, limit: Int32, now: Long, write: WriteOutcome)
    requires t > 0 && QuietAfter(p, t)
    ensures ComputeDelta(file, p, t, offset, limit, now, write).0.items == []
  {
    if limit > 0 {
      QuietPageAtAnyCap(file, p, t, WrapInt(Clamp(offset) + Clamp(limit)), offset, limit, now, write);
    }
  }

  /** Nothing changed after the threshold: every page of the merged list is empty, whatever the cap. */
  lemma QuietPageAtAnyCap(file: SnapshotFile, p: Provider, t: Long, cap: int, offset: Int32, limit: Int32, now: Long, write: WriteOutcome)
    requires t > 0 && QuietAfter(p, t)
    ensures Page(Reconcile(file, p, t, cap, now, write).0, offset, limit) == []
  {
    QuietReconcile(file, p, t, cap, now, write);
  }

  /** Nothing changed after the threshold: the merged list is empty, whatever the cap. */
  lemma QuietReconcile(file: SnapshotFile, p: Provider, t: Long, cap: int, now: Long, write: WriteOutcome)
    requires t > 0 && QuietAfter(p, t)
    ensures Reconcile(file, p, t, cap, now, write).0 == []
  {
    QuietAtAnyCap(p, t, cap);
    assert |Candidates(Load(file, p.contacts, write).0, [], [], now)| == 0;
  }

  /** Nothing changed after the threshold: both provider queries come back empty, whatever the cap. */
  lemma QuietAtAnyCap(p: Provider, t: Long, cap: int)
    requires t > 0 && QuietAfter(p, t)
    ensures QueryContactsForDelta(p, t, cap) == []
    ensures QueryDeletedContacts(p, t, cap) == []
  {
    NothingUpdatedAfter(p.contacts, t);
    NothingRemovedAfter(p.deletedLog, t);
    if cap > 0 {
      assert |QueryDeletedContacts(p, t, cap)| <= 0 by {
        LinkedMaps.DedupLength(RemovedIds(Take([], cap)));
      }
    }
  }

  /** With no contact updated after `t`, the selection is empty. */
  lemma {:induction false} NothingUpdatedAfter(contacts: seq<Contact>, t: int)
    requires forall c :: c in contacts ==> c.lastUpdatedAt.None? || c.lastUpdatedAt.value <= t
    ensures UpdatedAfter(contacts, t) == []
  {
    if |contacts| > 0 {
      assert contacts[0] in contacts;
      NothingUpdatedAfter(contacts[1..], t);
    }
  }

  /** With no removal after `t`, the selection is empty. */
  lemma {:induction false} NothingRemovedAfter(log: seq<DeletedContact>, t: int)
    requires forall d :: d in log ==> d.deletedAt <= t
    ensures RemovedAfter(log, t) == []
  {
    if |log| > 0 {
      assert log[0] in log;
      NothingRemovedAfter(log[1..], t);
    }
  }
}
