/**
 * The snapshot store: the persisted map from contact id to the contact's state
 * at the last rebuild. Its document format is abstracted to three states.
 */
module SnapshotStore {
  import opened Options
  import opened Contacts

  /** A decoded snapshot: every entry is keyed by its own contact id, as decoding guarantees. */
  type Snapshot = m: map<string, SnapshotContact> | forall k :: k in m ==> m[k].id == k witness map[]

  /**
   * The snapshot file: missing, present but unreadable (empty text, corrupt
   * document, read failure), or holding the decoded contacts.
   */
  datatype SnapshotFile = Absent | Unreadable | Stored(contacts: Snapshot)

  /** What a rebuild records of one contact: everything but the given and family names. */
  function Capture(c: Contact): SnapshotContact {
    SnapshotContact(c.id, c.displayName, c.phoneNumbers, c.lastUpdatedAt, None, None)
  }

  /** The snapshot of the full contact list, keyed by id (a later contact with the same id wins). */
  function CaptureAll(contacts: seq<Contact>): (m: Snapshot)
    ensures forall i :: 0 <= i < |contacts| ==> contacts[i].id in m
    ensures forall id :: id in m ==> m[id].id == id && m[id].givenName.None? && m[id].familyName.None?
    decreases |contacts|
  {
    if |contacts| == 0 then map[]
    else
      var n := |contacts| - 1;
      var m0 := CaptureAll(contacts[..n]);
      assert forall i :: 0 <= i < n ==> contacts[..n][i] == contacts[i];
      m0[contacts[n].id := Capture(contacts[n])]
  }

  /** Every recorded entry is the capture of some contact of the list: a rebuild invents nothing. */
  lemma {:induction false} CaptureAllOrigin(contacts: seq<Contact>, id: string)
    requires id in CaptureAll(contacts)
    ensures exists i :: 0 <= i < |contacts| && CaptureAll(contacts)[id] == Capture(contacts[i])
  {
    var n := |contacts| - 1;
    if id != contacts[n].id {
      CaptureAllOrigin(contacts[..n], id);
      var i :| 0 <= i < n && CaptureAll(contacts[..n])[id] == Capture(contacts[..n][i]);
      assert contacts[..n][i] == contacts[i];
    }
  }

  /** With distinct ids, every contact is recorded exactly as captured. */
  lemma {:induction false} CaptureAllDistinct(contacts: seq<Contact>)
    requires forall i, j :: 0 <= i < j < |contacts| ==> contacts[i].id != contacts[j].id
    ensures forall c :: c in contacts ==> CaptureAll(contacts)[c.id] == Capture(c)
  {
    if |contacts| > 0 {
      var n := |contacts| - 1;
      CaptureAllDistinct(contacts[..n]);
      forall c | c in contacts
        ensures CaptureAll(contacts)[c.id] == Capture(c)
      {
        if c != contacts[n] {
          var i :| 0 <= i < |contacts| && contacts[i] == c;
          assert i < n;
          assert c in contacts[..n];
        }
      }
    }
  }

  /**
   * How `saveSnapshot`'s `writeText` ends. The write either succeeds, or fails
   * before the file is opened (the old file stays), or fails after opening has
   * truncated the file (an empty or partial document stays). The error itself
   * is swallowed.
   */
  datatype WriteOutcome = Written | NotOpened | Truncated

  /**
   * `rebuildSnapshot`: the whole snapshot is replaced by a capture of every
   * contact. A write that never opened the file leaves it as it was; one that
   * failed after opening leaves a document that no longer reads.
   */
  function Rebuild(file: SnapshotFile, contacts: seq<Contact>, write: WriteOutcome): (f: SnapshotFile)
    ensures write.Written? ==> f == Stored(CaptureAll(contacts))
    ensures write.NotOpened? ==> f == file
    ensures write.Truncated? ==> f == Unreadable
    ensures f.Absent? <==> file.Absent? && write.NotOpened?
  {
    match write
    case Written => Stored(CaptureAll(contacts))
    case NotOpened => file
    case Truncated => Unreadable
  }

  /**
   * `loadSnapshot`: a missing file is rebuilt first and then read; an unreadable
   * one yields the empty map without a rebuild. Returns the map and the file
   * afterwards.
   */
  function Load(file: SnapshotFile, contacts: seq<Contact>, write: WriteOutcome): (r: (Snapshot, SnapshotFile))
    ensures !file.Absent? ==> r.1 == file
    ensures file.Absent? ==> r.1 == Rebuild(file, contacts, write)
    ensures r.0 == if r.1.Stored? then r.1.contacts else map[]
    ensures file.Unreadable? ==> r.0 == map[]
  {
    match file
    case Absent =>
      var f := Rebuild(Absent, contacts, write);
      if f.Stored? then (f.contacts, f) else (map[], f)
    case Unreadable => (map[], Unreadable)
    case Stored(m) => (m, file)
  }

  /**
   * A rebuild whose write truncates the file gives up the missing-file retry.
   * The load sees the empty map, and so does every later load, whatever its
   * own write does.
   */
  lemma TruncatedRebuildIsFinal(contacts: seq<Contact>, contacts': seq<Contact>, write': WriteOutcome)
    ensures Load(Absent, contacts, Truncated) == (map[], Unreadable)
    ensures Load(Load(Absent, contacts, Truncated).1, contacts', write') == (map[], Unreadable)
  {
  }

  /** Loading again (with the same write outcome) changes nothing and sees the same snapshot. */
  lemma LoadIsStable(file: SnapshotFile, contacts: seq<Contact>, contacts': seq<Contact>, write: WriteOutcome)
    ensures Load(Load(file, contacts, write).1, contacts', write) == Load(file, contacts, write)
  {
  }
}
