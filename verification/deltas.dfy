/** `buildDelta`: one change-feed entry from a contact's current and previous state. */
module Deltas {
  import opened Options
  import opened LongText
  import opened Contacts
  import PhoneDiff

  /** Kotlin's `a ?: b` on two nullable values. */
  function OrElse<T>(a: Option<T>, b: Option<T>): (r: Option<T>)
    ensures r.Some? <==> a.Some? || b.Some?
    ensures a.Some? ==> r == a
  {
    if a.Some? then a else b
  }

  function Phones(c: Option<Contact>): Option<seq<PhoneEntry>> {
    if c.Some? then Some(c.value.phoneNumbers) else None
  }

  function PreviousPhones(p: Option<SnapshotContact>): Option<seq<PhoneEntry>> {
    if p.Some? then Some(p.value.phoneNumbers) else None
  }

  /**
   * Builds the entry. Each output field is the current contact's value when it
   * has one and falls back to the snapshot's; the change type is the requested
   * one for deletions and is otherwise decided by whether a snapshot exists.
   */
  function BuildDelta(current: Option<Contact>, previous: Option<SnapshotContact>, change: ChangeType, sortTimestamp: Long): (d: ContactDelta)
    ensures d.changeType == if change == Deleted then Deleted else if previous.None? then Created else Updated
    ensures d.isDeleted <==> d.changeType == Deleted
    ensures current.Some? ==> d.id == current.value.id && d.displayName == Some(current.value.displayName)
    ensures current.None? && previous.Some? ==> d.id == previous.value.id && d.displayName == Some(previous.value.displayName)
    ensures current.None? && previous.None? ==> d.id == "" && d.displayName == None
    ensures current.None? && previous.Some? ==>
      && d.givenName == previous.value.givenName
      && d.familyName == previous.value.familyName
      && d.lastUpdatedAt == previous.value.lastUpdatedAt
    ensures current.Some? ==>
      && d.givenName == OrElse(current.value.givenName, if previous.Some? then previous.value.givenName else None)
      && d.familyName == OrElse(current.value.familyName, if previous.Some? then previous.value.familyName else None)
      && d.lastUpdatedAt == OrElse(current.value.lastUpdatedAt, if previous.Some? then previous.value.lastUpdatedAt else None)
    ensures d.phoneNumbers == if current.Some? then Numbers(current.value.phoneNumbers) else []
    ensures d.previous.Some? <==> previous.Some?
    ensures previous.Some? ==>
      && d.previous.value.phoneNumbers == Numbers(previous.value.phoneNumbers)
      && d.previous.value.displayName == Some(previous.value.displayName)
      && d.previous.value.givenName == previous.value.givenName
      && d.previous.value.familyName == previous.value.familyName
    ensures d.phoneNumberChanges == PhoneDiff.Diff(Phones(current), PreviousPhones(previous))
    ensures d.sortTimestamp == sortTimestamp
  {
    var changes := PhoneDiff.Diff(Phones(current), PreviousPhones(previous));
    var previousState :=
      if previous.Some? then
        Some(PreviousState(Some(previous.value.displayName), previous.value.givenName,
                           previous.value.familyName, Numbers(previous.value.phoneNumbers)))
      else None;
    var changeType :=
      if change == Deleted then Deleted
      else if previous.None? then Created
      else Updated;
    var cur := if current.Some? then Some(current.value.id) else None;
    var prev := if previous.Some? then Some(previous.value.id) else None;
    ContactDelta(
      id := OrElse(cur, prev).GetOr(""),
      displayName := OrElse(if current.Some? then Some(current.value.displayName) else None,
                            if previous.Some? then Some(previous.value.displayName) else None),
      givenName := OrElse(if current.Some? then current.value.givenName else None,
                          if previous.Some? then previous.value.givenName else None),
      familyName := OrElse(if current.Some? then current.value.familyName else None,
                           if previous.Some? then previous.value.familyName else None),
      phoneNumbers := if current.Some? then Numbers(current.value.phoneNumbers) else [],
      lastUpdatedAt := OrElse(if current.Some? then current.value.lastUpdatedAt else None,
                              if previous.Some? then previous.value.lastUpdatedAt else None),
      changeType := changeType,
      phoneNumberChanges := changes,
      previous := previousState,
      isDeleted := changeType == Deleted,
      sortTimestamp := sortTimestamp)
  }

  /**
   * A deletion entry: it carries the snapshot's identity and names, no current
   * numbers, the full previous number list, and reports every surviving previous
   * number as deleted and nothing as created or updated.
   */
  lemma DeletionEntry(previous: SnapshotContact, deletedAt: Long)
    ensures var d := BuildDelta(None, Some(previous), Deleted, deletedAt);
      && d.isDeleted && d.id == previous.id && d.phoneNumbers == []
      && d.previous == Some(PreviousState(Some(previous.displayName), previous.givenName,
                                          previous.familyName, Numbers(previous.phoneNumbers)))
      && d.phoneNumberChanges.created == [] && d.phoneNumberChanges.updated == []
      && (forall e :: PhoneDiff.Survives(previous.phoneNumbers, e) ==> e.number in d.phoneNumberChanges.deleted)
  {
    PhoneDiff.DeletionReportsEveryNumber(previous.phoneNumbers);
  }
}
