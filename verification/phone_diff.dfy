/**
 * The field-level phone-number diff of `buildDelta`: both sides are first
 * collapsed by entry id with `associateBy` (the last entry per id survives, and
 * all entries without an id share one key); previous entries are then matched
 * to current ones by present id only, while a current entry without an id counts
 * as existing when any previous entry carries the same number.
 */
module PhoneDiff {
  import opened Options
  import opened Contacts
  import opened LinkedMaps

  type PhoneMap = LinkedMap<Option<string>, PhoneEntry>

  /** The pairs `(id, entry)` that `associateBy { it.id }` folds. */
  function Keyed(entries: seq<PhoneEntry>): seq<(Option<string>, PhoneEntry)> {
    seq(|entries|, i requires 0 <= i < |entries| => (entries[i].id, entries[i]))
  }

  /** The entry kept for `id` by `associateBy`: the last entry carrying that id. */
  function LastWithId(entries: seq<PhoneEntry>, id: Option<string>): Option<PhoneEntry> {
    LastValue(Keyed(entries), id)
  }

  /** Whether `e` is the entry that `associateBy` keeps for its id. */
  predicate Survives(entries: seq<PhoneEntry>, e: PhoneEntry) {
    LastWithId(entries, e.id) == Some(e)
  }

  lemma CollapseMembers(entries: seq<PhoneEntry>, m: PhoneMap)
    requires m == AssociateLast(Keyed(entries))
    ensures forall p :: p in m <==> p.0 == p.1.id && Survives(entries, p.1)
  {
    forall p
      ensures p in m <==> p.0 == p.1.id && Survives(entries, p.1)
    {
      GetIffIn(m, p);
      if p in m {
        assert p in Keyed(entries);
      }
    }
  }

  /** `associateBy { it.id }`. */
  function Collapse(entries: seq<PhoneEntry>): (m: PhoneMap)
    ensures DistinctKeys(m)
    ensures forall p :: p in m <==> p.0 == p.1.id && Survives(entries, p.1)
    ensures forall k :: Get(m, k) == LastWithId(entries, k)
    ensures |m| == |Dedup(Keys(Keyed(entries)))|
  {
    var m := AssociateLast(Keyed(entries));
    CollapseMembers(entries, m);
    m
  }

  /** The current entry a previous entry is correlated with: only through a present id. */
  function Counterpart(e: PhoneEntry, current: Option<PhoneMap>): Option<PhoneEntry> {
    if e.id.Some? && current.Some? then Get(current.value, e.id) else None
  }

  /** Previous-side loop, first branch: numbers of previous entries without a counterpart. */
  function DeletedNumbers(prev: PhoneMap, current: Option<PhoneMap>): seq<string> {
    if |prev| == 0 then []
    else
      (if Counterpart(prev[0].1, current).None? then [prev[0].1.number] else [])
      + DeletedNumbers(prev[1..], current)
  }

  /** Previous-side loop, second branch: `(previous, current)` numbers of correlated entries that differ. */
  function UpdatedPairs(prev: PhoneMap, current: Option<PhoneMap>): seq<(string, string)> {
    if |prev| == 0 then []
    else
      var e := prev[0].1;
      var m := Counterpart(e, current);
      (if m.Some? && m.value.number != e.number then [(e.number, m.value.number)] else [])
      + UpdatedPairs(prev[1..], current)
  }

  /**
   * Whether a current entry already existed: by key when it has an id, otherwise
   * by an equal number anywhere in the (uncollapsed) previous list.
   */
  predicate Existed(k: Option<string>, e: PhoneEntry, previous: Option<PhoneMap>, previousList: Option<seq<PhoneEntry>>) {
    if k.Some? then previous.Some? && Get(previous.value, k).Some?
    else previousList.Some? && e.number in Numbers(previousList.value)
  }

  /** Current-side loop: numbers of current entries that did not exist before. */
  function CreatedNumbers(cur: PhoneMap, previous: Option<PhoneMap>, previousList: Option<seq<PhoneEntry>>): seq<string> {
    if |cur| == 0 then []
    else
      (if !Existed(cur[0].0, cur[0].1, previous, previousList) then [cur[0].1.number] else [])
      + CreatedNumbers(cur[1..], previous, previousList)
  }

  /** The phone-number diff of a contact between its previous and current phone lists (absent = no such side). */
  function Diff(current: Option<seq<PhoneEntry>>, previous: Option<seq<PhoneEntry>>): (c: PhoneNumberChanges)
    ensures current.None? ==> c.created == [] && c.updated == []
    ensures previous.None? ==> c.updated == [] && c.deleted == []
  {
    var cm := if current.Some? then Some(Collapse(current.value)) else None;
    var pm := if previous.Some? then Some(Collapse(previous.value)) else None;
    var updated := if pm.Some? then UpdatedPairs(pm.value, cm) else [];
    var deleted := if pm.Some? then DeletedNumbers(pm.value, cm) else [];
    var created := if cm.Some? then CreatedNumbers(cm.value, pm, previous) else [];
    if pm.Some? && cm.None? then NoUpdatesWithoutCurrent(pm.value); PhoneNumberChanges(created, updated, deleted)
    else PhoneNumberChanges(created, updated, deleted)
  }

  lemma {:induction false} NoUpdatesWithoutCurrent(prev: PhoneMap)
    ensures UpdatedPairs(prev, None) == []
  {
    if |prev| > 0 {
      NoUpdatesWithoutCurrent(prev[1..]);
    }
  }

  lemma {:induction false} DeletedMembers(prev: PhoneMap, current: Option<PhoneMap>, n: string)
    ensures n in DeletedNumbers(prev, current) <==>
      exists p :: p in prev && Counterpart(p.1, current).None? && p.1.number == n
  {
    if |prev| > 0 {
      DeletedMembers(prev[1..], current, n);
      assert prev == [prev[0]] + prev[1..];
    }
  }

  lemma {:induction false} UpdatedMembers(prev: PhoneMap, current: Option<PhoneMap>, a: string, b: string)
    ensures (a, b) in UpdatedPairs(prev, current) <==>
      exists p :: p in prev && Counterpart(p.1, current).Some? && p.1.number == a
        && Counterpart(p.1, current).value.number == b && a != b
  {
    if |prev| > 0 {
      UpdatedMembers(prev[1..], current, a, b);
      assert prev == [prev[0]] + prev[1..];
    }
  }

  lemma {:induction false} CreatedMembers(cur: PhoneMap, previous: Option<PhoneMap>, previousList: Option<seq<PhoneEntry>>, n: string)
    ensures n in CreatedNumbers(cur, previous, previousList) <==>
      exists p :: p in cur && !Existed(p.0, p.1, previous, previousList) && p.1.number == n
  {
    if |cur| > 0 {
      CreatedMembers(cur[1..], previous, previousList, n);
      assert cur == [cur[0]] + cur[1..];
    }
  }

  /** A previous entry that no current entry can be correlated with: it has no id, or its id is gone. */
  predicate Uncorrelated(e: PhoneEntry, current: Option<seq<PhoneEntry>>) {
    e.id.None? || current.None? || LastWithId(current.value, e.id).None?
  }

  /** A previous entry holding `a` whose id the surviving current entry holding `b` shares. */
  predicate CorrelatedTo(e: PhoneEntry, current: seq<PhoneEntry>, a: string, b: string) {
    e.id.Some? && LastWithId(current, e.id).Some? && e.number == a && LastWithId(current, e.id).value.number == b
  }

  /** A current entry with no previous counterpart: by id when it has one, by number otherwise. */
  predicate IsNew(c: PhoneEntry, previous: Option<seq<PhoneEntry>>) {
    if c.id.Some? then previous.None? || LastWithId(previous.value, c.id).None?
    else previous.None? || c.number !in Numbers(previous.value)
  }

  /**
   * A number is reported deleted exactly when a surviving previous entry carries it
   * and that entry has no id, or no current entry carries its id (or there is no
   * current side at all).
   */
  lemma DeletedIff(current: Option<seq<PhoneEntry>>, previous: Option<seq<PhoneEntry>>, n: string)
    ensures n in Diff(current, previous).deleted <==>
      previous.Some? && (exists e :: Survives(previous.value, e) && e.number == n && Uncorrelated(e, current))
  {
    if previous.Some? {
      var cm := if current.Some? then Some(Collapse(current.value)) else None;
      var pm := Collapse(previous.value);
      DeletedMembers(pm, cm, n);
      if n in Diff(current, previous).deleted {
        var p :| p in pm && Counterpart(p.1, cm).None? && p.1.number == n;
        assert Survives(previous.value, p.1);
      }
      if exists e :: Survives(previous.value, e) && e.number == n && Uncorrelated(e, current) {
        var e :| Survives(previous.value, e) && e.number == n && Uncorrelated(e, current);
        assert (e.id, e) in pm;
      }
    }
  }

  /**
   * `(a, b)` is reported updated exactly when a surviving previous entry with an id
   * holds `a`, the surviving current entry with the same id holds `b`, and `a != b`.
   */
  lemma UpdatedIff(current: Option<seq<PhoneEntry>>, previous: Option<seq<PhoneEntry>>, a: string, b: string)
    ensures (a, b) in Diff(current, previous).updated <==>
      previous.Some? && current.Some? && a != b
      && (exists e :: Survives(previous.value, e) && CorrelatedTo(e, current.value, a, b))
  {
    if previous.Some? && (a, b) in Diff(current, previous).updated {
      UpdatedSound(current, previous.value, a, b);
    }
    if previous.Some? && current.Some? && a != b
      && exists e :: Survives(previous.value, e) && CorrelatedTo(e, current.value, a, b) {
      UpdatedComplete(current, previous.value, a, b);
    }
  }

  lemma UpdatedSound(current: Option<seq<PhoneEntry>>, previous: seq<PhoneEntry>, a: string, b: string)
    requires (a, b) in Diff(current, Some(previous)).updated
    ensures current.Some? && a != b && exists e :: Survives(previous, e) && CorrelatedTo(e, current.value, a, b)
  {
    var cm := if current.Some? then Some(Collapse(current.value)) else None;
    var pm := Collapse(previous);
    UpdatedMembers(pm, cm, a, b);
    var p :| p in pm && Counterpart(p.1, cm).Some? && p.1.number == a
      && Counterpart(p.1, cm).value.number == b && a != b;
    assert Survives(previous, p.1);
  }

  lemma UpdatedComplete(current: Option<seq<PhoneEntry>>, previous: seq<PhoneEntry>, a: string, b: string)
    requires current.Some? && a != b && exists e :: Survives(previous, e) && CorrelatedTo(e, current.value, a, b)
    ensures (a, b) in Diff(current, Some(previous)).updated
  {
    var cm := Some(Collapse(current.value));
    var pm := Collapse(previous);
    UpdatedMembers(pm, cm, a, b);
    var e :| Survives(previous, e) && CorrelatedTo(e, current.value, a, b);
    assert (e.id, e) in pm;
  }

  /**
   * A number is reported created exactly when a surviving current entry carries it
   * and, if it has an id, no previous entry carries that id, or, if it has none,
   * no previous entry carries that number.
   */
  lemma CreatedIff(current: Option<seq<PhoneEntry>>, previous: Option<seq<PhoneEntry>>, n: string)
    ensures n in Diff(current, previous).created <==>
      current.Some? && (exists c :: Survives(current.value, c) && c.number == n && IsNew(c, previous))
  {
    if current.Some? {
      var cm := Collapse(current.value);
      var pm := if previous.Some? then Some(Collapse(previous.value)) else None;
      CreatedMembers(cm, pm, previous, n);
      if n in Diff(current, previous).created {
        var p :| p in cm && !Existed(p.0, p.1, pm, previous) && p.1.number == n;
        assert Survives(current.value, p.1);
      }
      if exists c :: Survives(current.value, c) && c.number == n && IsNew(c, previous) {
        var c :| Survives(current.value, c) && c.number == n && IsNew(c, previous);
        assert (c.id, c) in cm;
      }
    }
  }

  lemma {:induction false} NoDeletionsWhenAllCorrelated(prev: PhoneMap, current: Option<PhoneMap>)
    requires forall p :: p in prev ==> Counterpart(p.1, current).Some?
    ensures DeletedNumbers(prev, current) == []
  {
    if |prev| > 0 {
      assert prev[0] in prev;
      assert forall p :: p in prev[1..] ==> p in prev;
      NoDeletionsWhenAllCorrelated(prev[1..], current);
    }
  }

  lemma {:induction false} NoUpdatesWhenNumbersKept(prev: PhoneMap, current: Option<PhoneMap>)
    requires forall p :: p in prev ==> Counterpart(p.1, current) == Some(p.1)
    ensures UpdatedPairs(prev, current) == []
  {
    if |prev| > 0 {
      assert prev[0] in prev;
      assert forall p :: p in prev[1..] ==> p in prev;
      NoUpdatesWhenNumbersKept(prev[1..], current);
    }
  }

  lemma {:induction false} NoCreationsWhenAllExisted(cur: PhoneMap, previous: Option<PhoneMap>, previousList: Option<seq<PhoneEntry>>)
    requires forall p :: p in cur ==> Existed(p.0, p.1, previous, previousList)
    ensures CreatedNumbers(cur, previous, previousList) == []
  {
    if |cur| > 0 {
      assert cur[0] in cur;
      assert forall p :: p in cur[1..] ==> p in cur;
      NoCreationsWhenAllExisted(cur[1..], previous, previousList);
    }
  }

  /** When every entry carries an id, diffing a phone list against itself reports nothing. */
  lemma UnchangedListsDiffEmpty(s: seq<PhoneEntry>)
    requires forall i :: 0 <= i < |s| ==> s[i].id.Some?
    ensures Diff(Some(s), Some(s)) == PhoneNumberChanges([], [], [])
  {
    var m := Collapse(s);
    forall p | p in m
      ensures p.1.id.Some? && Get(m, p.0) == Some(p.1) && p.0 == p.1.id
    {
      assert p in AssociateLast(Keyed(s));
      assert p in Keyed(s);
    }
    NoDeletionsWhenAllCorrelated(m, Some(m));
    NoUpdatesWhenNumbersKept(m, Some(m));
    NoCreationsWhenAllExisted(m, Some(m), Some(s));
  }

  lemma {:induction false} DeletedWithoutCurrentLength(prev: PhoneMap)
    ensures |DeletedNumbers(prev, None)| == |prev|
  {
    if |prev| > 0 {
      DeletedWithoutCurrentLength(prev[1..]);
    }
  }

  lemma {:induction false} CreatedWithoutPreviousLength(cur: PhoneMap)
    ensures |CreatedNumbers(cur, None, None)| == |cur|
  {
    if |cur| > 0 {
      CreatedWithoutPreviousLength(cur[1..]);
    }
  }

  /**
   * A deletion (no current side) reports no created or updated numbers, and one
   * deleted number per distinct previous id: the number of its surviving entry.
   */
  lemma DeletionReportsEveryNumber(previous: seq<PhoneEntry>)
    ensures Diff(None, Some(previous)).created == []
    ensures Diff(None, Some(previous)).updated == []
    ensures |Diff(None, Some(previous)).deleted| == |Collapse(previous)|
    ensures forall e :: Survives(previous, e) ==> e.number in Diff(None, Some(previous)).deleted
  {
    DeletedWithoutCurrentLength(Collapse(previous));
    forall e | Survives(previous, e)
      ensures e.number in Diff(None, Some(previous)).deleted
    {
      DeletedIff(None, Some(previous), e.number);
    }
  }

  /**
   * A creation (no previous side) reports no updated or deleted numbers, and one
   * created number per distinct current id: the number of its surviving entry.
   */
  lemma CreationReportsEveryNumber(current: seq<PhoneEntry>)
    ensures Diff(Some(current), None).updated == []
    ensures Diff(Some(current), None).deleted == []
    ensures |Diff(Some(current), None).created| == |Collapse(current)|
    ensures forall c :: Survives(current, c) ==> c.number in Diff(Some(current), None).created
  {
    CreatedWithoutPreviousLength(Collapse(current));
    forall c | Survives(current, c)
      ensures c.number in Diff(Some(current), None).created
    {
      CreatedIff(Some(current), None, c.number);
    }
  }

  /** Example: the entry with id "a" changes its number from "1" to "2", which is one update. */
  lemma RenumberedEntryIsUpdated()
    ensures Diff(Some([PhoneEntry(Some("a"), "2")]), Some([PhoneEntry(Some("a"), "1")]))
      == PhoneNumberChanges([], [("1", "2")], [])
  {
    var cur := [PhoneEntry(Some("a"), "2")];
    var prev := [PhoneEntry(Some("a"), "1")];
    assert Keyed(cur) == [(Some("a"), cur[0])];
    assert Keyed(prev) == [(Some("a"), prev[0])];
    assert Collapse(cur) == [(Some("a"), cur[0])];
    assert Collapse(prev) == [(Some("a"), prev[0])];
  }
}
