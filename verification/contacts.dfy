/**
 * The records of the Android sync engine (`ContactsLastUpdatedModule`'s data
 * classes), with nullable fields as `Option` and `Long` timestamps as `Long`.
 */
module Contacts {
  import opened Options
  import opened LongText

  /** One phone number of a contact; `id` is the provider's data-row id, when known. */
  datatype PhoneEntry = PhoneEntry(id: Option<string>, number: string)

  /** A contact as the provider currently reports it. */
  datatype Contact = Contact(
    id: string,
    displayName: string,
    phoneNumbers: seq<PhoneEntry>,
    lastUpdatedAt: Option<Long>,
    givenName: Option<string>,
    familyName: Option<string>)

  /** The state of a contact captured at the last rebuild of the snapshot. */
  datatype SnapshotContact = SnapshotContact(
    id: string,
    displayName: string,
    phoneNumbers: seq<PhoneEntry>,
    lastUpdatedAt: Option<Long>,
    givenName: Option<string>,
    familyName: Option<string>)

  datatype ChangeType = Created | Updated | Deleted

  /** The value-level diff of a contact's phone numbers; `updated` holds `(previous, current)` pairs. */
  datatype PhoneNumberChanges = PhoneNumberChanges(
    created: seq<string>,
    updated: seq<(string, string)>,
    deleted: seq<string>)

  datatype PreviousState = PreviousState(
    displayName: Option<string>,
    givenName: Option<string>,
    familyName: Option<string>,
    phoneNumbers: seq<string>)

  /** One entry of the change feed. */
  datatype ContactDelta = ContactDelta(
    id: string,
    displayName: Option<string>,
    givenName: Option<string>,
    familyName: Option<string>,
    phoneNumbers: seq<string>,
    lastUpdatedAt: Option<Long>,
    changeType: ChangeType,
    phoneNumberChanges: PhoneNumberChanges,
    previous: Option<PreviousState>,
    isDeleted: bool,
    sortTimestamp: Long)

  /** A row of the provider's deleted-contacts log. */
  datatype DeletedContact = DeletedContact(contactId: string, deletedAt: Long)

  /** `map { it.number }`. */
  function Numbers(entries: seq<PhoneEntry>): seq<string> {
    seq(|entries|, i requires 0 <= i < |entries| => entries[i].number)
  }

  /** `map { it.id }` over contacts. */
  function ContactIds(contacts: seq<Contact>): seq<string> {
    seq(|contacts|, i requires 0 <= i < |contacts| => contacts[i].id)
  }

  /** The sort key of the change feed. */
  function SortKey(d: ContactDelta): int {
    d.sortTimestamp
  }
}
