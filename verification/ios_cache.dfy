/**
 * The iOS last-seen timestamp cache: an in-memory map from contact identifier
 * to a millisecond timestamp, mirrored into the user-defaults store after
 * every write.
 */
module TimestampCache {
  import opened Options

  /**
   * What the user-defaults store holds under the cache's key: nothing, a value
   * that does not decode as a map of timestamps, or such a map.
   */
  datatype Stored = Unset | Undecodable | Timestamps(entries: map<string, int>)

  /** The cache: its in-memory map and what the user-defaults store holds. */
  datatype Cache = Cache(entries: map<string, int>, persisted: Stored)

  /** The persisted copy holds exactly the in-memory map. */
  predicate Mirrored(c: Cache) {
    c.persisted == Timestamps(c.entries)
  }

  /** `init`: the stored map when it decodes, the empty map otherwise; nothing is written. */
  function Init(stored: Stored): (c: Cache)
    ensures c.persisted == stored
    ensures stored.Timestamps? ==> c.entries == stored.entries && Mirrored(c)
    ensures !stored.Timestamps? ==> c.entries == map[]
  {
    Cache(if stored.Timestamps? then stored.entries else map[], stored)
  }

  /** `getTimestamp`: the timestamp recorded for `id`, if any. */
  function GetTimestamp(c: Cache, id: string): (r: Option<int>)
    ensures r.Some? <==> id in c.entries
    ensures r.Some? ==> r.value == c.entries[id]
  {
    if id in c.entries then Some(c.entries[id]) else None
  }

  /** `setTimestamp`: records `ts` for `id` and writes the whole map back to the store. */
  function SetTimestamp(c: Cache, ts: int, id: string): (c': Cache)
    ensures Mirrored(c')
    ensures c'.entries.Keys == c.entries.Keys + {id}
  {
    var entries := c.entries[id := ts];
    Cache(entries, Timestamps(entries))
  }

  /** An identifier neither loaded nor set reads as absent. */
  lemma NeverSetIsAbsent(stored: Stored, id: string)
    requires !stored.Timestamps? || id !in stored.entries
    ensures GetTimestamp(Init(stored), id) == None
  {
  }

  /** A set is read back, and no other identifier's timestamp changes. */
  lemma GetAfterSet(c: Cache, ts: int, id: string)
    ensures GetTimestamp(SetTimestamp(c, ts, id), id) == Some(ts)
    ensures forall other :: other != id ==> GetTimestamp(SetTimestamp(c, ts, id), other) == GetTimestamp(c, other)
  {
  }

  /** A cache loaded again from what a set persisted sees exactly the map in memory. */
  lemma ReloadAfterSet(c: Cache, ts: int, id: string)
    ensures Init(SetTimestamp(c, ts, id).persisted) == SetTimestamp(c, ts, id)
  {
  }
}
