# Contacts last-updated: a verified model of the change feed

This project models the core of a React Native contacts library in Dafny. The library lists contacts newest-updated first and pages an incremental "delta" feed of changes since a checkpoint.

The main part is the Android delta engine (`computeDelta`):
- It reads recently updated contacts and the deleted-contacts log.
- It compares them with a stored snapshot of every contact.
- It classifies each change as CREATED, UPDATED or DELETED, with a per-number phone diff.
- It merges the two lists newest first and returns one `drop(off).take(lim)` page, with the clock reading as the proposed next checkpoint.

Around the engine the model also covers:
- the checkpoint protocol: `getPersistedSince`, `getUpdatedFromPersisted` and `commitPersisted`, where a commit stores the token and rebuilds the snapshot;
- the routing of `getUpdatedSince` between full mode and delta mode;
- the JavaScript client's paging loops (`streamAll`, `streamUpdatedSince`, `streamUpdatedFromPersisted`);
- the in-memory fallback module used when no native module is registered;
- the iOS bridge's option defaults, cache-mode timestamp seeding, ordering and change handler;
- the iOS timestamp cache.

The model is pure: every input is an explicit parameter.
- Contacts, the deleted-contacts log and the snapshot are sequences and maps (`Engine.Provider`, `SnapshotStore.SnapshotFile`).
- The clock is a `now` argument.
- How a snapshot write ends is a `WriteOutcome` argument, because the source swallows write errors: `Written`, `NotOpened` (the old file stays) or `Truncated` (the write failed after `writeText` opened and truncated the file, leaving an empty or partial document).
- The stored checkpoint is a state record (`NativeModule.NativeState`).
- A client's page requests are served by an oracle function from request to reply.
- Kotlin's `Long` and `Int` are integer subtypes, and the overflow of `off + lim` is written out (`LongText.WrapInt`).
- Kotlin's insertion-ordered hash maps are sequences of pairs (`LinkedMaps`).

The Android entry points (`NativeModule`) call `Engine.ComputeDelta`, the delta call as written, whose provider queries are capped at `off + lim` rows. `Engine.ComputeDeltaUncapped` is the corrected call described under "## Findings"; the lemmas about consecutive pages are stated for both.

Modules, one per file:
- `options`, `contacts`: the data classes.
- `long_text`: decimal text of `Long`.
- `linked_maps`: insertion-ordered maps.
- `windows`: drop/take and filter.
- `sorting`: stable descending sort.
- `phone_diff`, `deltas`: `buildDelta`.
- `snapshot`: snapshot load and rebuild.
- `engine`: `computeDelta`.
- `feed_laws`, `engine_laws`, `scenarios`: properties and worked examples.
- `native_module`: the Android entry points.
- `client_streams`: the paging loops.
- `fallback`: the fallback module.
- `ios_cache`, `string_order`, `ios_bridge`: the iOS side.

### Behaviour worth noting
- **Unreadable snapshot.** A snapshot file that exists but cannot be read, or is empty, gives the empty map and triggers no rebuild. Only a missing file triggers a rebuild (`ContactsLastUpdatedModule.kt` lines 510-516 and 542-544). `SnapshotStore.Load` models this as `Unreadable`.
- **Failed snapshot writes.** `saveSnapshot` swallows every write error (lines 568-571). A write that fails after `writeText` has opened the file leaves it truncated. The next load then reads the empty map, and because the file exists no rebuild is attempted again (`SnapshotStore.TruncatedRebuildIsFinal`). A committed checkpoint can in this way lose the snapshot it had.
- **Value-equality fallback.** Phone entries without ids fall back to value equality only on the current side (line 288). On the previous side, an entry with a null id has no counterpart, so its number is always reported deleted (line 277). `Scenarios.AliceDiffWithoutIds` shows the effect.

## Model

| member | source | states |
|---|---|---|
| LongText.WrapInt | android/src/main/java/com/contactslastupdated/ContactsLastUpdatedModule.kt:197 | the 32-bit `Int` sum `off + lim` differs from the mathematical sum by a multiple of 2^32 and equals it when no overflow occurs |
| LongText.FormatLong | android/src/main/java/com/contactslastupdated/ContactsLastUpdatedModule.kt:121 | `Long.toString`: never empty, and starts with a minus sign exactly for negative values |
| LongText.ParseFormatRoundTrip | android/src/main/java/com/contactslastupdated/ContactsLastUpdatedModule.kt:140-143 | every `Long` printed in decimal parses back to itself, so a stored checkpoint survives its round trip through a string token |
| LongText.ParseLong | android/src/main/java/com/contactslastupdated/ContactsLastUpdatedModule.kt:127 | `toLongOrNull`: an all-digit text, or one with a single leading `+` or `-` followed by digits, parses to its decimal value exactly when that value is within the `Long` range; the empty text, a lone sign, and any text with a non-digit after its first character do not parse |
| LongText.DigitsValueOfDigits | android/src/main/java/com/contactslastupdated/ContactsLastUpdatedModule.kt:142 | the decimal digits printed for a natural number read back as that number |
| LongText.WhitespaceSet | android/src/main/java/com/contactslastupdated/ContactsLastUpdatedModule.kt:116 | `isBlank` counts as whitespace tab, line feed, vertical tab, form feed, carriage return, U+001C to U+001F and every Unicode space, line or paragraph separator, the no-break spaces included; NUL, NEL, the zero-width space and the byte-order mark are not whitespace, and the empty text is blank |
| LongText.BlankAppend | android/src/main/java/com/contactslastupdated/ContactsLastUpdatedModule.kt:116 | blankness is decided character by character: a text is blank exactly when both of its parts are |
| LongText.BlankNeverParses | android/src/main/java/com/contactslastupdated/ContactsLastUpdatedModule.kt:116-127 | a blank token never parses as a number, so the full-mode branch and the parse fallback never both apply |
| LongText.FormattedNotBlank | android/src/main/java/com/contactslastupdated/ContactsLastUpdatedModule.kt:121 | a printed clock reading is never blank, so a proposed `nextSince` never asks for full mode |
| LinkedMaps.AssociateLast | android/src/main/java/com/contactslastupdated/ContactsLastUpdatedModule.kt:268-269 | `associateBy`: keys in first-occurrence order without repeats, and each key maps to the value of its last occurrence |
| LinkedMaps.AssociateFirst | android/src/main/java/com/contactslastupdated/ContactsLastUpdatedModule.kt:253-258 | put-if-absent over the rows: keys in first-occurrence order without repeats, and each key keeps the value of its first occurrence |
| LinkedMaps.PutFacts | android/src/main/java/com/contactslastupdated/ContactsLastUpdatedModule.kt:256 | an insertion-ordered put appends a new key, keeps an existing key in place, reads back the new value and leaves every other key unchanged |
| LinkedMaps.GetIffIn | android/src/main/java/com/contactslastupdated/ContactsLastUpdatedModule.kt:276-277 | in a map without repeated keys, a pair is present exactly when looking up its key yields its value |
| LinkedMaps.DedupFacts | android/src/main/java/com/contactslastupdated/ContactsLastUpdatedModule.kt:253-259 | removing repeats keeps exactly the keys that occur |
| Windows.WindowElements | android/src/main/java/com/contactslastupdated/ContactsLastUpdatedModule.kt:216 | `drop(off).take(lim)` holds at most `lim` elements, none when `off` is past the end, and element `i` is element `off + i` of the list |
| Windows.Drop | android/src/main/java/com/contactslastupdated/ContactsLastUpdatedModule.kt:216 | `drop(n)` keeps the list for a non-positive `n` and otherwise is the suffix after the first `n` elements (empty once `n` reaches the length) |
| Windows.Take | android/src/main/java/com/contactslastupdated/ContactsLastUpdatedModule.kt:216 | `take(n)` is empty for a non-positive `n` and otherwise is the prefix of the first `n` elements, or the whole list when it is shorter |
| Windows.WindowSlice | android/src/main/java/com/contactslastupdated/ContactsLastUpdatedModule.kt:216 | a window is a contiguous slice, and a window shorter than the limit reaches the end of the list |
| Windows.AdjacentWindows | android/src/main/java/com/contactslastupdated/ContactsLastUpdatedModule.kt:216 | the windows `[off, off + a)` and `[off + a, off + a + b)` concatenate to the window `[off, off + a + b)` |
| Deltas.OrElse | android/src/main/java/com/contactslastupdated/ContactsLastUpdatedModule.kt:309-314 | the elvis operator `a ?: b`: `a` when present, otherwise `b`, absent only when both are |
| Deltas.BuildDelta | android/src/main/java/com/contactslastupdated/ContactsLastUpdatedModule.kt:262-321 | the change type (DELETED when asked, else CREATED exactly when there is no previous state), `isDeleted` iff DELETED; id and display name from the current contact else the previous one; given name, family name and last-updated time field by field as the current value `?:` the snapshot value; the full current number list; the previous state iff a snapshot entry exists, with its display name, given and family names and full number list; the phone diff and the sort timestamp |
| Deltas.DeletionEntry | android/src/main/java/com/contactslastupdated/ContactsLastUpdatedModule.kt:210 | a removal entry is DELETED with the snapshot entry's id and name, no current numbers, the whole previous number list and every collapsed previous number deleted |
| PhoneDiff.Collapse | android/src/main/java/com/contactslastupdated/ContactsLastUpdatedModule.kt:268-269 | phone entries keyed by entry id: one pair per distinct id, holding the last entry with that id, with every null id sharing one key |
| PhoneDiff.CollapseMembers | android/src/main/java/com/contactslastupdated/ContactsLastUpdatedModule.kt:268-269 | a keyed pair survives collapsing exactly when its entry is the last one carrying its id |
| PhoneDiff.Diff | android/src/main/java/com/contactslastupdated/ContactsLastUpdatedModule.kt:268-293 | with no current list nothing is created or updated; with no previous list nothing is updated or deleted |
| PhoneDiff.NoUpdatesWithoutCurrent | android/src/main/java/com/contactslastupdated/ContactsLastUpdatedModule.kt:276 | a removed contact has no updated numbers |
| PhoneDiff.DeletedIff | android/src/main/java/com/contactslastupdated/ContactsLastUpdatedModule.kt:275-279 | a number is reported deleted exactly when a surviving previous entry carrying it has a null id or an id absent from the current entries |
| PhoneDiff.UpdatedIff | android/src/main/java/com/contactslastupdated/ContactsLastUpdatedModule.kt:275-282 | a pair (a, b) is reported updated exactly when a surviving previous entry with number a has a non-null id whose surviving current entry has number b, and a differs from b |
| PhoneDiff.UpdatedSound | android/src/main/java/com/contactslastupdated/ContactsLastUpdatedModule.kt:276-282 | every reported update comes from a previous entry correlated by id to a current entry with a different number |
| PhoneDiff.UpdatedComplete | android/src/main/java/com/contactslastupdated/ContactsLastUpdatedModule.kt:276-282 | every previous entry correlated by id to a current entry with a different number is reported as updated |
| PhoneDiff.CreatedIff | android/src/main/java/com/contactslastupdated/ContactsLastUpdatedModule.kt:286-292 | a number is reported created exactly when a surviving current entry carrying it has a non-null id absent from the previous entries, or has a null id and no previous entry has the same number |
| PhoneDiff.DeletedMembers | android/src/main/java/com/contactslastupdated/ContactsLastUpdatedModule.kt:276-279 | membership of the deleted list in terms of the collapsed previous entries and their counterparts |
| PhoneDiff.UpdatedMembers | android/src/main/java/com/contactslastupdated/ContactsLastUpdatedModule.kt:276-282 | membership of the updated list in terms of the collapsed previous entries and their counterparts |
| PhoneDiff.CreatedMembers | android/src/main/java/com/contactslastupdated/ContactsLastUpdatedModule.kt:287-290 | membership of the created list in terms of the collapsed current entries and the existence test |
| PhoneDiff.UnchangedListsDiffEmpty | android/src/main/java/com/contactslastupdated/ContactsLastUpdatedModule.kt:268-293 | a number list compared with itself, every entry having an id, reports no change at all |
| PhoneDiff.NoDeletionsWhenAllCorrelated | android/src/main/java/com/contactslastupdated/ContactsLastUpdatedModule.kt:275-279 | when every previous entry has a current counterpart, no number is reported deleted |
| PhoneDiff.NoUpdatesWhenNumbersKept | android/src/main/java/com/contactslastupdated/ContactsLastUpdatedModule.kt:275-282 | when every previous entry's counterpart carries the same number, no update is reported |
| PhoneDiff.NoCreationsWhenAllExisted | android/src/main/java/com/contactslastupdated/ContactsLastUpdatedModule.kt:286-292 | when every current entry existed before, by id or by value, no number is reported created |
| PhoneDiff.DeletedWithoutCurrentLength | android/src/main/java/com/contactslastupdated/ContactsLastUpdatedModule.kt:275-279 | without a current list, one deletion is reported per collapsed previous entry |
| PhoneDiff.CreatedWithoutPreviousLength | android/src/main/java/com/contactslastupdated/ContactsLastUpdatedModule.kt:286-292 | without a previous list, one creation is reported per collapsed current entry |
| PhoneDiff.DeletionReportsEveryNumber | android/src/main/java/com/contactslastupdated/ContactsLastUpdatedModule.kt:275-284 | for a removed contact nothing is created or updated, and every collapsed previous number is reported deleted, once per collapsed entry |
| PhoneDiff.CreationReportsEveryNumber | android/src/main/java/com/contactslastupdated/ContactsLastUpdatedModule.kt:286-293 | for a new contact nothing is updated or deleted, and every collapsed current number is reported created, once per collapsed entry |
| PhoneDiff.RenumberedEntryIsUpdated | android/src/main/java/com/contactslastupdated/ContactsLastUpdatedModule.kt:280-281 | an entry keeping its id while its number changes is reported as one update from the old number to the new one |
| SnapshotStore.CaptureAll | android/src/main/java/com/contactslastupdated/ContactsLastUpdatedModule.kt:583-593 | the rebuilt snapshot holds an entry for every contact under its own id, with no given or family name |
| SnapshotStore.CaptureAllOrigin | android/src/main/java/com/contactslastupdated/ContactsLastUpdatedModule.kt:593 | every snapshot entry is the capture of some provider contact |
| SnapshotStore.CaptureAllDistinct | android/src/main/java/com/contactslastupdated/ContactsLastUpdatedModule.kt:586-593 | when contact ids are distinct, each contact's entry is exactly its capture |
| SnapshotStore.Rebuild | android/src/main/java/com/contactslastupdated/ContactsLastUpdatedModule.kt:574-597 | a rebuild whose write succeeds stores the capture of every contact; a write that never opened the file leaves it as it was; a write that failed after opening leaves an unreadable document; the file is missing afterwards only when it was missing and never opened |
| SnapshotStore.TruncatedRebuildIsFinal | android/src/main/java/com/contactslastupdated/ContactsLastUpdatedModule.kt:509-516 | a missing file whose rebuild truncates it reads as the empty map, and every later load also gives the empty map with no new rebuild, whatever its own write does |
| SnapshotStore.Load | android/src/main/java/com/contactslastupdated/ContactsLastUpdatedModule.kt:508-545 | an absent file triggers a rebuild and is then read; an unreadable file yields the empty map and is left as it is; a stored map is returned unchanged |
| SnapshotStore.LoadIsStable | android/src/main/java/com/contactslastupdated/ContactsLastUpdatedModule.kt:509-513 | loading again from the file a load left behind, with the same contacts and the same write outcome, returns the same map and the same file |
| Sorting.SortByDescending | android/src/main/java/com/contactslastupdated/ContactsLastUpdatedModule.kt:213-214 | `sortedByDescending`: a permutation, non-increasing by key, and stable: for every key value the entries with that key keep their input order |
| Sorting.TiesAppend | android/src/main/java/com/contactslastupdated/ContactsLastUpdatedModule.kt:214 | the entries with a given key in a concatenation are those of the first part followed by those of the second |
| Sorting.SortPair | android/src/main/java/com/contactslastupdated/ContactsLastUpdatedModule.kt:214 | two entries come out in descending key order, and on equal keys the first stays first |
| Engine.UpdatedAfter | android/src/main/java/com/contactslastupdated/ContactsLastUpdatedModule.kt:336-338 | at most as many rows as the provider holds, and a contact is selected exactly when its last-updated timestamp is known and later than the threshold (query order: Engine.UpdatedAfterKeepsOrder) |
| Engine.UpdatedAfterKeepsOrder | android/src/main/java/com/contactslastupdated/ContactsLastUpdatedModule.kt:336-345 | the selection keeps provider order: selecting from two runs of rows gives the selection from the first run followed by the selection from the second |
| Engine.RemovedAfter | android/src/main/java/com/contactslastupdated/ContactsLastUpdatedModule.kt:239-240 | at most as many rows as the log holds, and a removal row is selected exactly when its deletion time is later than the threshold (query order: Engine.RemovedAfterKeepsOrder) |
| Engine.RemovedAfterKeepsOrder | android/src/main/java/com/contactslastupdated/ContactsLastUpdatedModule.kt:239-250 | the selection keeps the log order: selecting from two runs of rows gives the selection from the first run followed by the selection from the second |
| Engine.QueryContactsForDelta | android/src/main/java/com/contactslastupdated/ContactsLastUpdatedModule.kt:225-229 | no rows for a non-positive count; at most `desiredCount` rows; without a positive threshold the first `desiredCount` contacts in provider order; with one, the first `desiredCount` contacts, in provider order, among those updated after it |
| Engine.DedupRemoved | android/src/main/java/com/contactslastupdated/ContactsLastUpdatedModule.kt:253-259 | the removal rows with repeated ids dropped: the ids in first-occurrence order, pairwise distinct, and each kept row is the first row with its id |
| Engine.QueryDeletedContacts | android/src/main/java/com/contactslastupdated/ContactsLastUpdatedModule.kt:231-259 | empty for a non-positive count or threshold; otherwise the first `desiredCount` log rows deleted after the threshold, in log order, de-duplicated to the first row per contact id; at most `desiredCount` rows with distinct ids, each from the deleted log and deleted after the threshold |
| Engine.UpdatedDeltas | android/src/main/java/com/contactslastupdated/ContactsLastUpdatedModule.kt:198-202 | one entry per updated contact, in order: the contact's `buildDelta` against its snapshot entry, so same id, not deleted, CREATED iff the id is absent from the snapshot, previous state iff present, the phone diff between the contact's numbers and the snapshot entry's, and timestamp `lastUpdatedAt` or else the clock reading |
| Engine.DeletionDelta | android/src/main/java/com/contactslastupdated/ContactsLastUpdatedModule.kt:207-210 | a deletion entry carries the removed id, is DELETED, holds the snapshot entry's number list as previous state, and sorts at the deletion time |
| Engine.DeletedDeltas | android/src/main/java/com/contactslastupdated/ContactsLastUpdatedModule.kt:204-211 | a removal yields an entry exactly when its id is in the snapshot and not among the updated ids, and every entry comes from such a removal |
| Engine.DeletedDeltaIds | android/src/main/java/com/contactslastupdated/ContactsLastUpdatedModule.kt:204-211 | every deletion entry's id is one of the removed ids |
| Engine.DeletedDeltasDistinct | android/src/main/java/com/contactslastupdated/ContactsLastUpdatedModule.kt:204-211 | removals with distinct ids give deletion entries with distinct ids |
| Engine.Candidates | android/src/main/java/com/contactslastupdated/ContactsLastUpdatedModule.kt:213-214 | the merged list is a permutation of the updated entries and the deletion entries, non-increasing by sort timestamp, keeps updated-before-deleted order within each timestamp, marks exactly the non-updated ids as deleted, and every deletion is a snapshot id |
| Engine.Reconcile | android/src/main/java/com/contactslastupdated/ContactsLastUpdatedModule.kt:196-214 | the merged list is the reconciliation of the two provider queries, fetched with the given cap, against the loaded snapshot; the snapshot file afterwards is the file left by loading it, so only a missing file is rebuilt |
| Engine.PermutationMembers | android/src/main/java/com/contactslastupdated/ContactsLastUpdatedModule.kt:213-214 | a permutation has the same members and the same length |
| Engine.Page | android/src/main/java/com/contactslastupdated/ContactsLastUpdatedModule.kt:216 | the page holds at most `lim` entries, none when `off` is past the end, and entry `i` is entry `off + i` of the merged list |
| Engine.PageKeepsOrder | android/src/main/java/com/contactslastupdated/ContactsLastUpdatedModule.kt:213-216 | a page of a newest-first list is newest first |
| Engine.ComputeDelta | android/src/main/java/com/contactslastupdated/ContactsLastUpdatedModule.kt:188-218 | `computeDelta` as written: for a positive limit the entries are the page `[off, off + lim)` of the merged list built from provider queries capped at the 32-bit sum `off + lim`, so at most `lim` entries, newest first; the clock reading as checkpoint; a non-positive limit returns no entries and leaves the snapshot file alone |
| Engine.ComputeDeltaUncapped | android/src/main/java/com/contactslastupdated/ContactsLastUpdatedModule.kt:188-218 | the corrected delta call: the entries are the window `[off, off + lim)` of one merged list that does not depend on the page asked for |
| FeedLaws.UpdatedEntryOrigin | android/src/main/java/com/contactslastupdated/ContactsLastUpdatedModule.kt:199-202 | an updated contact's entry is live, CREATED iff its id is absent from the snapshot and UPDATED iff present |
| FeedLaws.ClassificationCompleteness | android/src/main/java/com/contactslastupdated/ContactsLastUpdatedModule.kt:204-211 | a removal whose id is in the snapshot and not updated appears exactly once in the merged list, and is the only entry with that id |
| FeedLaws.DeletionOccursOnce | android/src/main/java/com/contactslastupdated/ContactsLastUpdatedModule.kt:204-213 | such a removal's entry occurs exactly once in the merged list |
| FeedLaws.DeletionIsAlone | android/src/main/java/com/contactslastupdated/ContactsLastUpdatedModule.kt:204-213 | no other entry of the merged list carries that removal's id |
| FeedLaws.ResurrectionPrecedence | android/src/main/java/com/contactslastupdated/ContactsLastUpdatedModule.kt:208-209 | a contact both updated and removed appears as its updated entry and never as a deletion |
| FeedLaws.UpdatedBeforeDeletedOnTies | android/src/main/java/com/contactslastupdated/ContactsLastUpdatedModule.kt:213-214 | among entries with equal sort timestamps, no updated entry follows a deletion |
| FeedLaws.UpdatedThenDeleted | android/src/main/java/com/contactslastupdated/ContactsLastUpdatedModule.kt:213-214 | in updated entries followed by deletion entries, no updated entry follows a deletion |
| FeedLaws.OccursOnce | android/src/main/java/com/contactslastupdated/ContactsLastUpdatedModule.kt:204-211 | in a list with distinct ids every member occurs exactly once |
| EngineLaws.UpdatedDeltasIgnoreClock | android/src/main/java/com/contactslastupdated/ContactsLastUpdatedModule.kt:201 | when every contact has a timestamp, the clock reading does not affect the updated entries |
| EngineLaws.ReconcileIgnoresClock | android/src/main/java/com/contactslastupdated/ContactsLastUpdatedModule.kt:201 | with a positive threshold the merged list does not depend on the clock reading |
| EngineLaws.ContactsQueryCovers | android/src/main/java/com/contactslastupdated/ContactsLastUpdatedModule.kt:225-229 | any two caps covering every contact select the same contacts |
| EngineLaws.RemovalsQueryCovers | android/src/main/java/com/contactslastupdated/ContactsLastUpdatedModule.kt:231-259 | any two caps covering every deleted-log row select the same removals |
| EngineLaws.CapIrrelevantWhenLarge | android/src/main/java/com/contactslastupdated/ContactsLastUpdatedModule.kt:197 | when `off + lim` covers every provider row, the as-written and the corrected calls agree |
| EngineLaws.SameRowsSamePage | android/src/main/java/com/contactslastupdated/ContactsLastUpdatedModule.kt:196-217 | two caps that select the same rows give the same page |
| EngineLaws.UncappedPagesConcatenate | android/src/main/java/com/contactslastupdated/ContactsLastUpdatedModule.kt:216 | corrected: the pages `[off, off + a)` and `[off + a, off + a + b)` of consecutive calls concatenate to the page `[off, off + a + b)`, and the second call leaves the snapshot as the first did |
| EngineLaws.DedupPair | android/src/main/java/com/contactslastupdated/ContactsLastUpdatedModule.kt:253-259 | two removal rows with different ids both survive de-duplication, in order |
| EngineLaws.DedupTwo | android/src/main/java/com/contactslastupdated/ContactsLastUpdatedModule.kt:253-259 | in the example, the removals of contacts 1 and 3 both survive de-duplication, in order |
| EngineLaws.SmallCapCandidates | android/src/main/java/com/contactslastupdated/ContactsLastUpdatedModule.kt:204-214 | in the example, under the cap 1 the removal feed holds only a removal with no snapshot entry, so the merged list is Alice's update alone |
| EngineLaws.LargerCapCandidates | android/src/main/java/com/contactslastupdated/ContactsLastUpdatedModule.kt:204-214 | in the example, under the cap 2 Bob's removal at 100 is reported and sorts ahead of Alice's update at 50 |
| EngineLaws.BobSortsFirst | android/src/main/java/com/contactslastupdated/ContactsLastUpdatedModule.kt:213-214 | a deletion at 100 sorts ahead of an update at 50 |
| EngineLaws.PageOneOfOne | android/src/main/java/com/contactslastupdated/ContactsLastUpdatedModule.kt:188-218 | as written, the one-entry first page of the example is Alice's update and leaves the snapshot file unchanged |
| EngineLaws.PageTwoOfOne | android/src/main/java/com/contactslastupdated/ContactsLastUpdatedModule.kt:188-218 | as written, the one-entry second page of the example is Alice's update again |
| EngineLaws.PageOfTwo | android/src/main/java/com/contactslastupdated/ContactsLastUpdatedModule.kt:188-218 | as written, the two-entry first page of the example is Bob's deletion followed by Alice's update |
| EngineLaws.AsWrittenPagesRepeat | android/src/main/java/com/contactslastupdated/ContactsLastUpdatedModule.kt:197-216 | as written, paging one entry at a time serves the same entry twice, and the two pages together differ from the two-entry page |
| NativeModule.FullMode | android/src/main/java/com/contactslastupdated/ContactsLastUpdatedModule.kt:116-124 | full mode: the page `[off, off + lim)` of every contact in provider order, the contact count as total, and the clock reading as proposed checkpoint |
| NativeModule.DeltaMode | android/src/main/java/com/contactslastupdated/ContactsLastUpdatedModule.kt:127-132 | delta mode is `computeDelta` as written against the given threshold: its entries and its snapshot file, the clock reading as proposed checkpoint, no entries and no state change for a non-positive limit; the stored checkpoint never changes |
| NativeModule.GetUpdatedSince | android/src/main/java/com/contactslastupdated/ContactsLastUpdatedModule.kt:108-133 | a blank token gives exactly the full-mode page and changes nothing; any other token gives the entries and snapshot file of `computeDelta` as written at the threshold the token parses to, or 0 when it does not parse; the stored checkpoint never changes |
| NativeModule.GetPersistedSince | android/src/main/java/com/contactslastupdated/ContactsLastUpdatedModule.kt:140-143 | the empty string exactly when the stored checkpoint is not positive, otherwise a text that parses back to it |
| NativeModule.GetUpdatedFromPersisted | android/src/main/java/com/contactslastupdated/ContactsLastUpdatedModule.kt:145-170 | while no positive checkpoint is stored, exactly the full-mode page and no change; otherwise the entries and snapshot file of `computeDelta` as written at the stored checkpoint; the stored checkpoint never changes |
| NativeModule.CommitPersisted | android/src/main/java/com/contactslastupdated/ContactsLastUpdatedModule.kt:172-181 | a token that does not parse changes nothing; a parsed one is stored, and the snapshot is rebuilt from every contact when the write succeeds, kept when the write never opened the file, and left unreadable when the write failed after opening it |
| NativeModule.PersistedMatchesExplicit | android/src/main/java/com/contactslastupdated/ContactsLastUpdatedModule.kt:140-170 | asking with the persisted checkpoint answers exactly as passing the text `getPersistedSince` returns |
| NativeModule.CommitThenRead | android/src/main/java/com/contactslastupdated/ContactsLastUpdatedModule.kt:140-143 | committing a printed checkpoint stores it, and it reads back as the same text, or as "" when it is not positive |
| NativeModule.RejectedCommitIsNoOp | android/src/main/java/com/contactslastupdated/ContactsLastUpdatedModule.kt:173-177 | a blank token is rejected and the module state is exactly as before |
| NativeModule.CommitRebuilds | android/src/main/java/com/contactslastupdated/ContactsLastUpdatedModule.kt:178-179 | after a successful commit the next delta call diffs against the capture of every contact and changes nothing more |
| NativeModule.UnparsableTokenReportsNoDeletions | android/src/main/java/com/contactslastupdated/ContactsLastUpdatedModule.kt:127 | a token that is not blank but does not parse is read as threshold 0, and then no entry is a deletion |
| NativeModule.NoThresholdNoDeletions | android/src/main/java/com/contactslastupdated/ContactsLastUpdatedModule.kt:231-234 | without a threshold no removal is fetched, so the merged list holds no deletion entry whatever the cap |
| NativeModule.QuietProviderEmptyFeed | android/src/main/java/com/contactslastupdated/ContactsLastUpdatedModule.kt:164 | when nothing was updated or removed after the stored checkpoint, the persisted delta call returns no entries |
| NativeModule.QuietAtAnyCap | android/src/main/java/com/contactslastupdated/ContactsLastUpdatedModule.kt:225-259 | when nothing was updated or removed after a positive threshold, both provider queries come back empty whatever the cap |
| NativeModule.NothingUpdatedAfter | android/src/main/java/com/contactslastupdated/ContactsLastUpdatedModule.kt:336-338 | when no contact is updated after the threshold, the contact query selects none |
| NativeModule.NothingRemovedAfter | android/src/main/java/com/contactslastupdated/ContactsLastUpdatedModule.kt:239-240 | when no removal is later than the threshold, the deleted-log query selects none |
| ClientStreams.StreamAll | src/index.tsx:38-46 | requests are contiguous (each offset is the number of items yielded so far), every yielded page is the non-empty answer at its offset, and the loop stops exactly at an empty or missing page |
| ClientStreams.StreamAllCoversList | src/index.tsx:38-46 | against a list served in windows, the stream finishes and the yielded pages concatenate to the whole list |
| ClientStreams.StreamUpdatedSince | src/index.tsx:50-67 | every request sends the original token, offsets are contiguous, only an empty page stops the loop, and the returned token is the latest truthy proposal or else the input token |
| ClientStreams.StreamUpdatedFromPersisted | src/index.tsx:70-85 | the session token is the first proposal seen, offsets are contiguous, every page but the last is full, the loop stops at an empty or short page, a commit happens only after paging ends and only for a truthy token, and the result is the session token or the persisted one |
| ClientStreams.FirstProposal | src/index.tsx:77 | the first present proposal, present exactly when some proposal is |
| ClientStreams.PersistedSessionFromFirstReply | src/index.tsx:72-77 | the session token is the first reply's proposal whenever that reply has one |
| ClientStreams.PersistedStreamCoversList | src/index.tsx:70-82 | against a list served in windows, the persisted stream finishes and its pages concatenate to the whole list |
| ClientStreams.WindowPagesArePrefix | src/index.tsx:75-80 | pages taken as consecutive windows always concatenate to a prefix of the list |
| ClientStreams.WindowRunEnds | src/index.tsx:78-81 | consecutive windows are at most as many as the items, and an empty next window or a short last page means the whole list was read |
| ClientStreams.RunPagesAreWindows | src/index.tsx:75-80 | non-empty pages requested at contiguous offsets from a list served in windows form a run of consecutive windows |
| Fallback.Step | src/NativeContactsLastUpdated.ts:44-57 | each call answers with its promised shape and no items, reports the current token, and only a commit changes the state, to any string |
| Fallback.RunReportsLastCommit | src/NativeContactsLastUpdated.ts:44-57 | over any sequence of calls, every answer reports the token of the last commit before it (or the initial one) and the module ends with the last committed token |
| Fallback.FreshTokenIsEmpty | src/NativeContactsLastUpdated.ts:45-51 | a fresh module reports the empty token |
| Fallback.CommitThenRead | src/NativeContactsLastUpdated.ts:51-55 | a commit is read back unchanged, the empty string included |
| TimestampCache.Init | ios/ContactsLastUpdatedCache.swift:7-9 | the stored map when it decodes, the empty map otherwise; nothing is written |
| TimestampCache.GetTimestamp | ios/ContactsLastUpdatedCache.swift:11 | present exactly when the id has an entry, and then its value |
| TimestampCache.SetTimestamp | ios/ContactsLastUpdatedCache.swift:13-16 | the store mirrors the in-memory map afterwards, and the keys grow by exactly the given id |
| TimestampCache.NeverSetIsAbsent | ios/ContactsLastUpdatedCache.swift:8-11 | an id neither loaded nor set reads as absent |
| TimestampCache.GetAfterSet | ios/ContactsLastUpdatedCache.swift:11-14 | a set value reads back, and every other id reads as before |
| TimestampCache.ReloadAfterSet | ios/ContactsLastUpdatedCache.swift:8-15 | a cache loaded again from what a set persisted equals the cache in memory |
| StringOrder.LessAsymmetric | ios/ContactsLastUpdatedBridge.swift:86 | string `<` is irreflexive and asymmetric |
| StringOrder.LessTransitive | ios/ContactsLastUpdatedBridge.swift:86 | string `<` is transitive |
| StringOrder.LessTotal | ios/ContactsLastUpdatedBridge.swift:86 | any two strings are equal or ordered one way |
| StringOrder.SortAscending | ios/ContactsLastUpdatedBridge.swift:86 | a permutation in which no key is less than an earlier key |
| IosBridge.ReadSettings | ios/ContactsLastUpdatedBridge.swift:29-32 | `iosMode` is the text option when present, else "alpha"; `include.phones` and `include.emails` are the boolean options when present, else true |
| IosBridge.DefaultSettings | ios/ContactsLastUpdatedBridge.swift:29-32 | without usable options the settings are "alpha", phones and emails |
| IosBridge.Entries | ios/ContactsLastUpdatedBridge.swift:52-55 | one label/value pair per labelled value, in order, with a missing label read as "other" |
| IosBridge.GetOrSeed | ios/ContactsLastUpdatedBridge.swift:71-75 | a cached timestamp is returned and nothing is written; a missing one is seeded with the clock reading, written and returned |
| IosBridge.Enumerate | ios/ContactsLastUpdatedBridge.swift:45-83 | one row per contact, in enumeration order, with an excluded field given as an empty list; outside cache mode every timestamp is absent and the cache is untouched |
| IosBridge.CacheModeCache | ios/ContactsLastUpdatedBridge.swift:68-76 | in cache mode the cache afterwards holds the old entries plus the clock reading for every new identifier, is mirrored to the store when it changed, and is unchanged when every identifier was cached |
| IosBridge.CacheModeRows | ios/ContactsLastUpdatedBridge.swift:68-76 | in cache mode each row's timestamp is the cached value or else the clock reading |
| IosBridge.SeedIsStable | ios/ContactsLastUpdatedBridge.swift:68-76 | a second cache-mode call at any later time returns the same rows and writes nothing |
| IosBridge.SameStampsSameRows | ios/ContactsLastUpdatedBridge.swift:45-83 | rows depend on the cache and the clock only through the timestamps they report |
| IosBridge.Order | ios/ContactsLastUpdatedBridge.swift:85-93 | a permutation of the rows, ascending by display name in "alpha" mode and non-increasing by timestamp (absent read as 0) otherwise |
| IosBridge.GetContactsSortedByLastUpdated | ios/ContactsLastUpdatedBridge.swift:24-99 | rejects with "E_QUERY" exactly when enumeration fails, keeping the timestamps seeded before the failure; otherwise resolves with the enumerated rows in the mode's order |
| IosBridge.HandleContactsChanged | ios/ContactsLastUpdatedBridge.swift:110-121 | every enumerated identifier reads the clock reading afterwards, every other identifier reads as before, and the store is mirrored once anything was stamped |
| IosBridge.RestampedContactsReadNow | ios/ContactsLastUpdatedBridge.swift:110-117 | after a re-stamp, a cache-mode listing of the same contacts reports the re-stamp time for each and writes nothing |
| Scenarios.AliceDiff | android/src/main/java/com/contactslastupdated/ContactsLastUpdatedModule.kt:268-293 | Alice keeps "555" under the same entry id and gains "556": one number created, nothing updated or deleted |
| Scenarios.KeptAndAdded | android/src/main/java/com/contactslastupdated/ContactsLastUpdatedModule.kt:268-293 | a phone entry kept under its id plus an entry with a new id: only the new number is reported, as created |
| Scenarios.BobDiff | android/src/main/java/com/contactslastupdated/ContactsLastUpdatedModule.kt:286-293 | a contact without a snapshot entry has each of its numbers created |
| Scenarios.AliceEntry | android/src/main/java/com/contactslastupdated/ContactsLastUpdatedModule.kt:199-202 | Alice's entry is UPDATED at her timestamp 200, with "556" created and her previous numbers ["555"] |
| Scenarios.BobEntry | android/src/main/java/com/contactslastupdated/ContactsLastUpdatedModule.kt:199-202 | Bob's entry is CREATED at 100 with "777" created and no previous state |
| Scenarios.EndToEndOrder | android/src/main/java/com/contactslastupdated/ContactsLastUpdatedModule.kt:213-214 | with nothing removed, Alice's newer update sorts ahead of Bob's creation |
| Scenarios.EndToEnd | android/src/main/java/com/contactslastupdated/ContactsLastUpdatedModule.kt:188-218 | the merged list is Alice's UPDATED entry followed by Bob's CREATED entry, with their number changes and previous states |
| Scenarios.AliceDiffWithoutIds | android/src/main/java/com/contactslastupdated/ContactsLastUpdatedModule.kt:277-288 | without entry ids, the unchanged previous number "555" is reported deleted and "556" created, because only the current side falls back to value equality |
| Scenarios.ReplacedWithoutIds | android/src/main/java/com/contactslastupdated/ContactsLastUpdatedModule.kt:268-293 | without entry ids the current entries collapse onto the last one, so a number kept from the previous list is reported deleted and the added number created |

## Left out

- Provider queries (cursors over the contacts provider, `queryContactsPage`, `queryContactById`, `getPhoneNumbersForContact`, the query half of `rebuildSnapshot`): platform I/O. Their results are inputs. The provider is a list of contacts in query order and a deleted log in query order, and the query itself is modelled as a filter plus take.
- `getAll` and `getById` on Android: thin wrappers over the provider query and bridge marshalling.
- JSON encoding in `saveSnapshot` / `loadSnapshot`: a wrapper over a JSON library and the file system. The file is `Absent`, `Unreadable` (any corrupt or empty document) or `Stored(map)`. A partial document left by a truncated write is taken to be unreadable: it is a proper prefix of a JSON object, so its closing brace is missing.
- React Native bridge marshalling and promises (`contactToWritableMap`, `deltasToWritableArray`): serialisation into a foreign API.
- Clock readings: each call takes one `now`. The source reads the clock separately for `nextSince` and for each contact without a timestamp, and iOS reads it once per contact. All of these are taken to be the same reading.
- Double-to-Int conversion of `offset` and `limit`, and iOS `Double` timestamps: floating point. They are modelled as integers.
- `multiply(a, b)` in the fallback module: a template sample computing a floating-point product, not part of the change feed.
- LongText.ParseLong: accepts ASCII digits only. The JVM's `toLongOrNull` also accepts other Unicode decimal digits.
- IosBridge.Order: Swift's `String <` is modelled as lexicographic order on characters, with no Unicode normalisation. Swift's sort is not stable; the contract states only permutation and order, and the model picks insertion order.
- Label localisation (`localizedString(forLabel:)`) on iOS: platform text. A present label is kept as given.
- iOS platform plumbing (contact store enumeration, notification registration, user-defaults I/O): an enumeration is a list of contacts plus a failure flag. The user-defaults store is the `persisted` field of the cache.
- ClientStreams.StreamAll: runs at most `budget` requests and reports an unfinished run instead of looping without bound. The same holds for ClientStreams.StreamUpdatedSince and ClientStreams.StreamUpdatedFromPersisted. The covering lemmas show that a budget larger than the list always finishes.
- ClientStreams.StreamUpdatedFromPersisted: the commit is returned as a value rather than sent. `getPersistedSince` is passed in as the persisted token.
- EngineLaws.UncappedPagesConcatenate: requires one clock reading for both calls when the threshold is not positive. In that case contacts without a timestamp sort at the call's own clock reading, so two calls at different times can order them differently.
- Async generator mechanics in the client (`yield`, `await`): the loops run sequentially against the page oracle.
- The older module under `com/contactsupdated` and the iOS protocol file: permission checks and plumbing with no feed logic.

## Findings

| source | as written | input that shows it | evidently intended | confidence | as-written member | corrected member |
|---|---|---|---|---|---|---|
| android/src/main/java/com/contactslastupdated/ContactsLastUpdatedModule.kt:197-216 | Both provider queries are capped at `off + lim` rows before removals without a snapshot entry and resurrected ids are dropped. So the merged list being paged depends on the page requested. | Snapshot holds only contact 3. The provider has contact 10 updated at 50, and removals of 1 at 300 and of 3 at 100. With threshold 1, the pages (off 0, lim 1) and (off 1, lim 1) both return contact 10's update, while the page (off 0, lim 2) holds contact 3's deletion and contact 10's update. | Every page of one session is a window of the same merged list, so consecutive pages concatenate and no entry repeats or is skipped. | high; not executed | EngineLaws.AsWrittenPagesRepeat | EngineLaws.UncappedPagesConcatenate |
