/**
 * Insertion-ordered maps in the manner of `java.util.LinkedHashMap`, which
 * Kotlin's `associateBy` builds and which the removal feed is de-duplicated
 * through: entries are kept in the order their keys were first inserted, and
 * `put` on a present key replaces the value without moving the entry.
 */
module LinkedMaps {
  import opened Options

  /** The entries of a map, in iteration order. */
  type LinkedMap<K, V> = seq<(K, V)>

  /** The keys of a sequence of pairs, in order. */
  function Keys<K, V>(m: seq<(K, V)>): seq<K> {
    seq(|m|, i requires 0 <= i < |m| => m[i].0)
  }

  /** The values of a sequence of pairs, in order (`values.toList()`). */
  function Values<K, V>(m: seq<(K, V)>): seq<V> {
    seq(|m|, i requires 0 <= i < |m| => m[i].1)
  }

  predicate DistinctKeys<K(==), V>(m: seq<(K, V)>) {
    forall i, j :: 0 <= i < j < |m| ==> m[i].0 != m[j].0
  }

  /** The keys of `ks` in order of first occurrence, each once. */
  function Dedup<K(==)>(ks: seq<K>): seq<K> {
    if |ks| == 0 then []
    else
      var d := Dedup(ks[..|ks| - 1]);
      if ks[|ks| - 1] in d then d else d + [ks[|ks| - 1]]
  }

  /** `get`: the value stored under `k`. */
  function Get<K(==), V>(m: LinkedMap<K, V>, k: K): Option<V> {
    if |m| == 0 then None
    else if m[0].0 == k then Some(m[0].1)
    else Get(m[1..], k)
  }

  /** `put`: replaces the value in place when `k` is present, appends a new entry otherwise. */
  function Put<K(==), V>(m: LinkedMap<K, V>, k: K, v: V): LinkedMap<K, V> {
    if |m| == 0 then [(k, v)]
    else if m[0].0 == k then [(k, v)] + m[1..]
    else [m[0]] + Put(m[1..], k, v)
  }

  /** `if (!containsKey(k)) put(k, v)`. */
  function PutIfAbsent<K(==), V>(m: LinkedMap<K, V>, k: K, v: V): LinkedMap<K, V> {
    if Get(m, k).Some? then m else m + [(k, v)]
  }

  /** The value of the LAST pair of `kvs` whose key is `k`. */
  function LastValue<K(==), V>(kvs: seq<(K, V)>, k: K): Option<V> {
    if |kvs| == 0 then None
    else if kvs[|kvs| - 1].0 == k then Some(kvs[|kvs| - 1].1)
    else LastValue(kvs[..|kvs| - 1], k)
  }

  /** The value of the FIRST pair of `kvs` whose key is `k`. */
  function FirstValue<K(==), V>(kvs: seq<(K, V)>, k: K): Option<V> {
    if |kvs| == 0 then None
    else if FirstValue(kvs[..|kvs| - 1], k).Some? then FirstValue(kvs[..|kvs| - 1], k)
    else if kvs[|kvs| - 1].0 == k then Some(kvs[|kvs| - 1].1)
    else None
  }

  lemma {:induction false} GetKeys<K, V>(m: LinkedMap<K, V>, k: K)
    ensures Get(m, k).Some? <==> k in Keys(m)
    ensures Get(m, k).Some? ==> (k, Get(m, k).value) in m
  {
    if |m| > 0 {
      GetKeys(m[1..], k);
      assert Keys(m) == [m[0].0] + Keys(m[1..]);
    }
  }

  /** In a map with distinct keys, an entry is present exactly when `get` finds its value. */
  lemma {:induction false} GetIffIn<K, V>(m: LinkedMap<K, V>, p: (K, V))
    requires DistinctKeys(m)
    ensures p in m <==> Get(m, p.0) == Some(p.1)
  {
    if |m| > 0 {
      GetIffIn(m[1..], p);
      assert forall j :: 0 <= j < |m[1..]| ==> m[1..][j].0 != m[0].0 by {
        forall j | 0 <= j < |m[1..]|
          ensures m[1..][j].0 != m[0].0
        {
          assert m[1..][j] == m[j + 1];
        }
      }
    }
  }

  /** `put` on a map: a new key is appended, an existing key keeps its place. */
  lemma {:induction false} PutFacts<K, V>(m: LinkedMap<K, V>, k: K, v: V)
    ensures Keys(Put(m, k, v)) == if k in Keys(m) then Keys(m) else Keys(m) + [k]
    ensures DistinctKeys(m) ==> DistinctKeys(Put(m, k, v))
    ensures forall k' :: Get(Put(m, k, v), k') == if k' == k then Some(v) else Get(m, k')
    ensures forall p :: p in Put(m, k, v) ==> p == (k, v) || p in m
  {
    PutKeys(m, k, v);
    if DistinctKeys(m) {
      PutDistinct(m, k, v);
    }
    forall k' {
      PutGet(m, k, v, k');
    }
    PutMembers(m, k, v);
  }

  lemma {:induction false} PutKeys<K, V>(m: LinkedMap<K, V>, k: K, v: V)
    ensures Keys(Put(m, k, v)) == if k in Keys(m) then Keys(m) else Keys(m) + [k]
  {
    if |m| > 0 {
      var tail := Keys(m[1..]);
      assert Keys(m) == [m[0].0] + tail;
      if m[0].0 == k {
        assert Keys(Put(m, k, v)) == [k] + tail;
      } else {
        PutKeys(m[1..], k, v);
        assert Keys(Put(m, k, v)) == [m[0].0] + Keys(Put(m[1..], k, v));
        assert k in Keys(m) <==> k in tail;
        if k !in tail {
          assert [m[0].0] + (tail + [k]) == ([m[0].0] + tail) + [k];
        }
      }
    }
  }

  lemma {:induction false} PutDistinct<K, V>(m: LinkedMap<K, V>, k: K, v: V)
    requires DistinctKeys(m)
    ensures DistinctKeys(Put(m, k, v))
  {
    if |m| > 0 && m[0].0 != k {
      var rest := Put(m[1..], k, v);
      PutDistinct(m[1..], k, v);
      PutMembers(m[1..], k, v);
      assert Put(m, k, v) == [m[0]] + rest;
      forall j | 0 <= j < |rest|
        ensures rest[j].0 != m[0].0
      {
        assert rest[j] in rest;
        if rest[j] != (k, v) {
          var i :| 0 <= i < |m[1..]| && m[1..][i] == rest[j];
          assert m[1..][i] == m[i + 1];
        }
      }
    }
  }

  lemma {:induction false} PutGet<K, V>(m: LinkedMap<K, V>, k: K, v: V, k': K)
    ensures Get(Put(m, k, v), k') == if k' == k then Some(v) else Get(m, k')
  {
    if |m| > 0 && m[0].0 != k {
      PutGet(m[1..], k, v, k');
      assert Put(m, k, v)[1..] == Put(m[1..], k, v);
    }
  }

  lemma {:induction false} PutMembers<K, V>(m: LinkedMap<K, V>, k: K, v: V)
    ensures forall p :: p in Put(m, k, v) ==> p == (k, v) || p in m
  {
    if |m| > 0 && m[0].0 != k {
      PutMembers(m[1..], k, v);
    }
  }

  lemma {:induction false} DedupFacts<K>(ks: seq<K>)
    ensures forall k :: k in Dedup(ks) <==> k in ks
  {
    if |ks| > 0 {
      DedupFacts(ks[..|ks| - 1]);
      assert ks == ks[..|ks| - 1] + [ks[|ks| - 1]];
    }
  }

  /**
   * Folding `put` over the pairs (Kotlin's `associateBy`): keys appear in order of
   * first occurrence, each once, and hold the value of their LAST pair.
   */
  function AssociateLast<K(==,!new), V(!new)>(kvs: seq<(K, V)>): (m: LinkedMap<K, V>)
    ensures Keys(m) == Dedup(Keys(kvs))
    ensures DistinctKeys(m)
    ensures forall k :: Get(m, k) == LastValue(kvs, k)
    ensures forall p :: p in m ==> p in kvs
  {
    if |kvs| == 0 then []
    else
      var n := |kvs| - 1;
      var m0 := AssociateLast(kvs[..n]);
      PutFacts(m0, kvs[n].0, kvs[n].1);
      assert Keys(kvs)[..n] == Keys(kvs[..n]);
      assert forall p :: p in kvs[..n] ==> p in kvs;
      Put(m0, kvs[n].0, kvs[n].1)
  }

  /**
   * Folding "put unless present" over the pairs: keys appear in order of first
   * occurrence, each once, and hold the value of their FIRST pair.
   */
  function AssociateFirst<K(==,!new), V(!new)>(kvs: seq<(K, V)>): (m: LinkedMap<K, V>)
    ensures Keys(m) == Dedup(Keys(kvs))
    ensures DistinctKeys(m)
    ensures forall k :: Get(m, k) == FirstValue(kvs, k)
    ensures forall p :: p in m ==> p in kvs
  {
    if |kvs| == 0 then []
    else
      var n := |kvs| - 1;
      var m0 := AssociateFirst(kvs[..n]);
      var k := kvs[n].0;
      GetKeys(m0, k);
      assert Keys(kvs)[..n] == Keys(kvs[..n]);
      assert forall p :: p in kvs[..n] ==> p in kvs;
      assert Get(m0, k).None? ==> forall k' :: k' != k ==> Get(m0 + [(k, kvs[n].1)], k') == Get(m0, k') by {
        if Get(m0, k).None? {
          forall k' | k' != k
            ensures Get(m0 + [(k, kvs[n].1)], k') == Get(m0, k')
          {
            GetSnoc(m0, (k, kvs[n].1), k');
          }
          GetSnoc(m0, (k, kvs[n].1), k);
        }
      }
      assert Get(m0, k).None? ==> Get(m0 + [(k, kvs[n].1)], k) == Some(kvs[n].1) by {
        if Get(m0, k).None? {
          GetSnoc(m0, (k, kvs[n].1), k);
        }
      }
      assert Get(m0, k).None? ==> DistinctKeys(m0 + [(k, kvs[n].1)]) by {
        if Get(m0, k).None? {
          forall i | 0 <= i < |m0|
            ensures m0[i].0 != k
          {
            assert Keys(m0)[i] == m0[i].0;
          }
        }
      }
      PutIfAbsent(m0, k, kvs[n].1)
  }

  lemma {:induction false} GetSnoc<K, V>(m: LinkedMap<K, V>, p: (K, V), k: K)
    ensures Get(m + [p], k) == if Get(m, k).Some? then Get(m, k) else if p.0 == k then Some(p.1) else None
  {
    if |m| > 0 {
      assert (m + [p])[1..] == m[1..] + [p];
      GetSnoc(m[1..], p, k);
    }
  }

  lemma {:induction false} DedupLength<K>(ks: seq<K>)
    ensures |Dedup(ks)| <= |ks|
  {
    if |ks| > 0 {
      DedupLength(ks[..|ks| - 1]);
    }
  }
}
