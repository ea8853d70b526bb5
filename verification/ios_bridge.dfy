/**
 * The iOS bridge's `getContactsSortedByLastUpdated` and its change handler.
 * The contact store's enumeration is an input (the contacts it yields, and
 * whether it then fails); the clock is one `now` reading per call.
 */
module IosBridge {
  import opened Options
  import opened TimestampCache
  import StringOrder
  import Sorting

  /** A value found in the options dictionary, as the bridge's casts see it. */
  datatype Value = Text(text: string) | Flag(flag: bool) | Dict(entries: map<string, Value>) | OtherValue

  function Lookup(d: Option<map<string, Value>>, key: string): Option<Value> {
    if d.Some? && key in d.value then Some(d.value[key]) else None
  }

  /** `as? String`, `as? Bool`, `as? NSDictionary`: the value when it has that type. */
  function AsText(v: Option<Value>): Option<string> {
    if v.Some? && v.value.Text? then Some(v.value.text) else None
  }

  function AsFlag(v: Option<Value>): Option<bool> {
    if v.Some? && v.value.Flag? then Some(v.value.flag) else None
  }

  function AsDict(v: Option<Value>): Option<map<string, Value>> {
    if v.Some? && v.value.Dict? then Some(v.value.entries) else None
  }

  datatype Settings = Settings(iosMode: string, includePhones: bool, includeEmails: bool)

  /** Reads the options: each setting is taken when present with the right type, else its default. */
  function ReadSettings(options: Option<map<string, Value>>): (s: Settings)
    ensures AsText(Lookup(options, "iosMode")).Some? ==> s.iosMode == AsText(Lookup(options, "iosMode")).value
    ensures AsText(Lookup(options, "iosMode")).None? ==> s.iosMode == "alpha"
    ensures s.includePhones == AsFlag(Lookup(AsDict(Lookup(options, "include")), "phones")).GetOr(true)
    ensures s.includeEmails == AsFlag(Lookup(AsDict(Lookup(options, "include")), "emails")).GetOr(true)
  {
    var includeDict := AsDict(Lookup(options, "include"));
    Settings(AsText(Lookup(options, "iosMode")).GetOr("alpha"),
             AsFlag(Lookup(includeDict, "phones")).GetOr(true),
             AsFlag(Lookup(includeDict, "emails")).GetOr(true))
  }

  /** Without options, or with settings of the wrong type, the bridge sorts alphabetically and includes everything. */
  lemma DefaultSettings(options: Option<map<string, Value>>)
    requires forall key :: key in {"iosMode", "include"} ==> Lookup(options, key).None? || Lookup(options, key).value.OtherValue?
    ensures ReadSettings(options) == Settings("alpha", true, true)
  {
    assert Lookup(options, "iosMode").None? || Lookup(options, "iosMode").value.OtherValue?;
    assert Lookup(options, "include").None? || Lookup(options, "include").value.OtherValue?;
  }

  /** A labelled phone number or e-mail address; the label is missing for some entries. */
  datatype Labeled = Labeled(labelText: Option<string>, value: string)

  /** A contact as the contact store enumerates it; `fullName` is the formatter's output, when it has one. */
  datatype IosContact = IosContact(identifier: string, fullName: Option<string>, phones: seq<Labeled>, emails: seq<Labeled>)

  /** One row of the result: `(label, value)` pairs for phones and e-mails, and the cached timestamp in cache mode. */
  datatype Row = Row(id: string, displayName: string, phones: seq<(string, string)>, emails: seq<(string, string)>,
                     lastUpdated: Option<int>)

  /** The entries as `(label, value)` pairs; a missing label reads "other". */
  function Entries(ls: seq<Labeled>): (r: seq<(string, string)>)
    ensures |r| == |ls|
    ensures forall i :: 0 <= i < |ls| ==> r[i] == (ls[i].labelText.GetOr("other"), ls[i].value)
  {
    seq(|ls|, i requires 0 <= i < |ls| => (ls[i].labelText.GetOr("other"), ls[i].value))
  }

  /**
   * The cache-mode timestamp of `id`: the cached one when present, otherwise
   * `now`, which is then written to the cache.
   */
  function GetOrSeed(cache: Cache, id: string, now: int): (r: (int, Cache))
    ensures id in cache.entries ==> r == (cache.entries[id], cache)
    ensures id !in cache.entries ==> r.0 == now && r.1 == SetTimestamp(cache, now, id)
  {
    var cached := GetTimestamp(cache, id);
    if cached.Some? then (cached.value, cache) else (now, SetTimestamp(cache, now, id))
  }

  /** The row of one contact, and the cache afterwards. */
  function RowOf(c: IosContact, s: Settings, cache: Cache, now: int): (r: (Row, Cache)) {
    var stamped := if s.iosMode == "cache" then var g := GetOrSeed(cache, c.identifier, now); (Some(g.0), g.1) else (None, cache);
    (Row(c.identifier, c.fullName.GetOr(""),
         if s.includePhones then Entries(c.phones) else [],
         if s.includeEmails then Entries(c.emails) else [],
         stamped.0),
     stamped.1)
  }

  /** The identifiers of the enumerated contacts, in order. */
  function Identifiers(contacts: seq<IosContact>): (ids: seq<string>)
    ensures |ids| == |contacts| && forall i :: 0 <= i < |contacts| ==> ids[i] == contacts[i].identifier
  {
    seq(|contacts|, i requires 0 <= i < |contacts| => contacts[i].identifier)
  }

  /**
   * The rows of the enumerated contacts, in enumeration order, and the cache
   * afterwards. An excluded field is an empty list, not a missing one; outside
   * cache mode no row has a timestamp and the cache is not touched.
   */
  function Enumerate(contacts: seq<IosContact>, s: Settings, cache: Cache, now: int): (r: (seq<Row>, Cache))
    ensures |r.0| == |contacts|
    ensures forall i :: 0 <= i < |contacts| ==>
      && r.0[i].id == contacts[i].identifier
      && r.0[i].displayName == contacts[i].fullName.GetOr("")
      && r.0[i].phones == (if s.includePhones then Entries(contacts[i].phones) else [])
      && r.0[i].emails == (if s.includeEmails then Entries(contacts[i].emails) else [])
    ensures s.iosMode != "cache" ==> r.1 == cache && forall i :: 0 <= i < |contacts| ==> r.0[i].lastUpdated.None?
  {
    if |contacts| == 0 then ([], cache)
    else
      var n := |contacts| - 1;
      var before := Enumerate(contacts[..n], s, cache, now);
      var row := RowOf(contacts[n], s, before.1, now);
      (before.0 + [row.0], row.1)
  }

  /**
   * `c` holds the timestamps of `base`, plus `now` for every identifier of
   * `ids` that `base` lacks, and nothing else.
   */
  ghost predicate Seeded(c: Cache, base: map<string, int>, ids: seq<string>, now: int) {
    forall id :: GetTimestamp(c, id) == if id in base then Some(base[id]) else if id in ids then Some(now) else None
  }

  /** One cache-mode row: its timestamp is the base's or `now`, and its identifier joins the seeded ones. */
  lemma RowOfStep(contact: IosContact, s: Settings, c: Cache, base: map<string, int>, ids: seq<string>, now: int)
    requires s.iosMode == "cache" && Seeded(c, base, ids, now)
    ensures var id := contact.identifier;
      RowOf(contact, s, c, now).0.lastUpdated == Some(if id in base then base[id] else now)
    ensures Seeded(RowOf(contact, s, c, now).1, base, ids + [contact.identifier], now)
    ensures RowOf(contact, s, c, now).1 == c || Mirrored(RowOf(contact, s, c, now).1)
    ensures contact.identifier in c.entries ==> RowOf(contact, s, c, now).1 == c
  {
    var id := contact.identifier;
    assert GetTimestamp(c, id).Some? <==> id in c.entries;
    forall other
      ensures GetTimestamp(RowOf(contact, s, c, now).1, other) ==
        if other in base then Some(base[other]) else if other in ids + [id] then Some(now) else None
    {
      assert GetTimestamp(c, other) == if other in base then Some(base[other]) else if other in ids then Some(now) else None;
    }
  }

  /** What a cache-mode enumeration leaves in the cache. */
  lemma {:induction false} CacheModeCache(contacts: seq<IosContact>, s: Settings, cache: Cache, now: int)
    requires s.iosMode == "cache"
    ensures Seeded(Enumerate(contacts, s, cache, now).1, cache.entries, Identifiers(contacts), now)
    ensures Enumerate(contacts, s, cache, now).1 == cache || Mirrored(Enumerate(contacts, s, cache, now).1)
    ensures (forall i :: 0 <= i < |contacts| ==> contacts[i].identifier in cache.entries) ==>
      Enumerate(contacts, s, cache, now).1 == cache
  {
    if |contacts| > 0 {
      var n := |contacts| - 1;
      CacheModeCache(contacts[..n], s, cache, now);
      var before := Enumerate(contacts[..n], s, cache, now);
      assert Identifiers(contacts) == Identifiers(contacts[..n]) + [contacts[n].identifier];
      RowOfStep(contacts[n], s, before.1, cache.entries, Identifiers(contacts[..n]), now);
      if forall i :: 0 <= i < |contacts| ==> contacts[i].identifier in cache.entries {
        assert forall i :: 0 <= i < n ==> contacts[..n][i] == contacts[i];
        assert before.1 == cache;
      }
    } else {
      assert Identifiers(contacts) == [];
    }
  }

  /** The timestamps a cache-mode enumeration reports. */
  lemma {:induction false} CacheModeRows(contacts: seq<IosContact>, s: Settings, cache: Cache, now: int)
    requires s.iosMode == "cache"
    ensures var r := Enumerate(contacts, s, cache, now);
      forall i :: 0 <= i < |contacts| ==>
        r.0[i].lastUpdated == Some(if contacts[i].identifier in cache.entries then cache.entries[contacts[i].identifier] else now)
  {
    if |contacts| > 0 {
      var n := |contacts| - 1;
      CacheModeRows(contacts[..n], s, cache, now);
      CacheModeCache(contacts[..n], s, cache, now);
      var before := Enumerate(contacts[..n], s, cache, now);
      RowOfStep(contacts[n], s, before.1, cache.entries, Identifiers(contacts[..n]), now);
      var r := Enumerate(contacts, s, cache, now);
      assert r.0 == before.0 + [RowOf(contacts[n], s, before.1, now).0];
      forall i | 0 <= i < n
        ensures r.0[i].lastUpdated == Some(if contacts[i].identifier in cache.entries then cache.entries[contacts[i].identifier] else now)
      {
        assert r.0[i] == before.0[i];
        assert contacts[..n][i] == contacts[i];
      }
    }
  }

  /** A later cache-mode call, at any time, reports the same timestamps and writes nothing. */
  lemma SeedIsStable(contacts: seq<IosContact>, s: Settings, cache: Cache, now: int, later: int)
    requires s.iosMode == "cache"
    ensures var first := Enumerate(contacts, s, cache, now);
      Enumerate(contacts, s, first.1, later) == first
  {
    var first := Enumerate(contacts, s, cache, now);
    CacheModeCache(contacts, s, cache, now);
    CacheModeRows(contacts, s, cache, now);
    forall i | 0 <= i < |contacts|
      ensures contacts[i].identifier in first.1.entries
      ensures first.0[i].lastUpdated == Some(first.1.entries[contacts[i].identifier])
    {
      assert Identifiers(contacts)[i] == contacts[i].identifier;
      assert GetTimestamp(first.1, contacts[i].identifier).Some?;
    }
    CacheModeCache(contacts, s, first.1, later);
    CacheModeRows(contacts, s, first.1, later);
    SameStampsSameRows(contacts, s, cache, now, first.1, later);
  }

  /** Two enumerations of the same contacts with the same settings differ at most in their timestamps. */
  lemma SameStampsSameRows(contacts: seq<IosContact>, s: Settings, c1: Cache, now1: int, c2: Cache, now2: int)
    requires forall i :: 0 <= i < |contacts| ==>
      Enumerate(contacts, s, c1, now1).0[i].lastUpdated == Enumerate(contacts, s, c2, now2).0[i].lastUpdated
    ensures Enumerate(contacts, s, c1, now1).0 == Enumerate(contacts, s, c2, now2).0
  {
  }

  function DisplayNameKey(row: Row): string {
    row.displayName
  }

  /** The sort key outside alpha mode: the timestamp, a missing one counting as 0. */
  function TimestampKey(row: Row): int {
    row.lastUpdated.GetOr(0)
  }

  /** Alpha mode orders by ascending display name; every other mode by descending timestamp. */
  function Order(rows: seq<Row>, s: Settings): (r: seq<Row>)
    ensures multiset(r) == multiset(rows)
    ensures s.iosMode == "alpha" ==> StringOrder.Ascending(r, DisplayNameKey)
    ensures s.iosMode != "alpha" ==> Sorting.NonIncreasing(r, TimestampKey)
  {
    if s.iosMode == "alpha" then StringOrder.SortAscending(rows, DisplayNameKey)
    else Sorting.SortByDescending(rows, TimestampKey)
  }

  datatype Outcome = Resolved(rows: seq<Row>) | Rejected(code: string)

  /**
   * `getContactsSortedByLastUpdated`: the contacts enumerated before the store
   * finished (or failed, when `failed`) become rows; a failure rejects with
   * `E_QUERY`, and the timestamps seeded before it stay in the cache.
   */
  function GetContactsSortedByLastUpdated(options: Option<map<string, Value>>, enumerated: seq<IosContact>, failed: bool,
                                          cache: Cache, now: int): (r: (Outcome, Cache))
    ensures var s := ReadSettings(options);
      && r.1 == Enumerate(enumerated, s, cache, now).1
      && (failed <==> r.0 == Rejected("E_QUERY"))
      && (!failed ==> r.0.Resolved? && multiset(r.0.rows) == multiset(Enumerate(enumerated, s, cache, now).0))
      && (!failed && s.iosMode == "alpha" ==> StringOrder.Ascending(r.0.rows, DisplayNameKey))
      && (!failed && s.iosMode != "alpha" ==> Sorting.NonIncreasing(r.0.rows, TimestampKey))
  {
    var s := ReadSettings(options);
    var e := Enumerate(enumerated, s, cache, now);
    if failed then (Rejected("E_QUERY"), e.1) else (Resolved(Order(e.0, s)), e.1)
  }

  /** `handleContactsChanged`: stamps every enumerated identifier with `now`; a failure keeps what was stamped before it. */
  function HandleContactsChanged(cache: Cache, enumerated: seq<IosContact>, now: int): (c: Cache)
    ensures forall id :: GetTimestamp(c, id) == if id in Identifiers(enumerated) then Some(now) else GetTimestamp(cache, id)
    ensures |enumerated| > 0 ==> Mirrored(c)
  {
    if |enumerated| == 0 then cache
    else
      var n := |enumerated| - 1;
      var c0 := HandleContactsChanged(cache, enumerated[..n], now);
      assert Identifiers(enumerated) == Identifiers(enumerated[..n]) + [enumerated[n].identifier];
      SetTimestamp(c0, now, enumerated[n].identifier)
  }

  /** After the change handler stamps the contacts, a cache-mode listing of them reports `now` for each and writes nothing. */
  lemma RestampedContactsReadNow(cache: Cache, contacts: seq<IosContact>, s: Settings, now: int, later: int)
    requires s.iosMode == "cache"
    ensures var c := HandleContactsChanged(cache, contacts, now);
      var r := Enumerate(contacts, s, c, later);
      r.1 == c && forall i :: 0 <= i < |contacts| ==> r.0[i].lastUpdated == Some(now)
  {
    var c := HandleContactsChanged(cache, contacts, now);
    CacheModeCache(contacts, s, c, later);
    CacheModeRows(contacts, s, c, later);
    forall i | 0 <= i < |contacts|
      ensures contacts[i].identifier in c.entries && c.entries[contacts[i].identifier] == now
    {
      assert Identifiers(contacts)[i] == contacts[i].identifier;
      assert GetTimestamp(c, contacts[i].identifier) == Some(now);
    }
  }
}
