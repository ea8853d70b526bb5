/**
 * Kotlin's `sortedByDescending { key }`: a stable sort into non-increasing key
 * order. Stability is stated through `Ties`: the elements sharing any one key
 * keep their relative order.
 */
module Sorting {

  predicate NonIncreasing<T>(s: seq<T>, key: T -> int) {
    forall i, j :: 0 <= i < j < |s| ==> key(s[i]) >= key(s[j])
  }

  /** The elements of `s` whose key is `k`, in their order in `s`. */
  function Ties<T>(s: seq<T>, key: T -> int, k: int): seq<T> {
    if |s| == 0 then [] else (if key(s[0]) == k then [s[0]] else []) + Ties(s[1..], key, k)
  }

  /** Inserts `x` in front of the first element whose key does not exceed its own. */
  function Insert<T>(x: T, s: seq<T>, key: T -> int): seq<T> {
    if |s| == 0 then [x]
    else if key(s[0]) <= key(x) then [x] + s
    else [s[0]] + Insert(x, s[1..], key)
  }

  lemma {:induction false} TiesAppend<T>(a: seq<T>, b: seq<T>, key: T -> int, k: int)
    ensures Ties(a + b, key, k) == Ties(a, key, k) + Ties(b, key, k)
  {
    if |a| > 0 {
      assert (a + b)[1..] == a[1..] + b;
      TiesAppend(a[1..], b, key, k);
    } else {
      assert a + b == b;
    }
  }

  lemma {:induction false} InsertMultiset<T>(x: T, s: seq<T>, key: T -> int)
    ensures multiset(Insert(x, s, key)) == multiset{x} + multiset(s)
  {
    if |s| > 0 && key(s[0]) > key(x) {
      InsertMultiset(x, s[1..], key);
      assert s == [s[0]] + s[1..];
    }
  }

  lemma {:induction false} InsertSorted<T>(x: T, s: seq<T>, key: T -> int)
    requires NonIncreasing(s, key)
    ensures NonIncreasing(Insert(x, s, key), key)
  {
    if |s| > 0 && key(s[0]) > key(x) {
      var t := s[1..];
      var r := Insert(x, t, key);
      InsertSorted(x, t, key);
      InsertMultiset(x, t, key);
      forall j | 0 <= j < |r|
        ensures key(s[0]) >= key(r[j])
      {
        assert r[j] in multiset(r);
        if r[j] != x {
          assert r[j] in multiset(t);
          var i :| 0 <= i < |t| && t[i] == r[j];
          assert t[i] == s[i + 1];
        }
      }
      assert Insert(x, s, key) == [s[0]] + r;
    }
  }

  lemma TiesCons<T>(y: T, s: seq<T>, key: T -> int, k: int)
    ensures Ties([y] + s, key, k) == (if key(y) == k then [y] else []) + Ties(s, key, k)
  {
    assert ([y] + s)[1..] == s;
  }

  lemma {:induction false} InsertTies<T>(x: T, s: seq<T>, key: T -> int, k: int)
    ensures Ties(Insert(x, s, key), key, k) == (if key(x) == k then [x] else []) + Ties(s, key, k)
  {
    if |s| == 0 {
      TiesCons(x, [], key, k);
    } else if key(s[0]) <= key(x) {
      TiesCons(x, s, key, k);
    } else {
      InsertTies(x, s[1..], key, k);
      assert [s[0]] + s[1..] == s;
      TiesPastHead(x, s[0], s[1..], Insert(x, s[1..], key), key, k);
    }
  }

  /** Passing over a head with a larger key: the inserted element's tie joins behind the head's. */
  lemma TiesPastHead<T>(x: T, y: T, rest: seq<T>, r: seq<T>, key: T -> int, k: int)
    requires key(y) > key(x)
    requires Ties(r, key, k) == (if key(x) == k then [x] else []) + Ties(rest, key, k)
    ensures Ties([y] + r, key, k) == (if key(x) == k then [x] else []) + Ties([y] + rest, key, k)
  {
    TiesCons(y, r, key, k);
    TiesCons(y, rest, key, k);
    if key(x) != k {
      assert (if key(x) == k then [x] else []) == [];
    } else {
      assert key(y) != k;
    }
  }

  /** The stable descending sort, by insertion. */
  function SortByDescending<T>(s: seq<T>, key: T -> int): (r: seq<T>)
    ensures multiset(r) == multiset(s)
    ensures NonIncreasing(r, key)
    ensures forall k :: Ties(r, key, k) == Ties(s, key, k)
  {
    if |s| == 0 then []
    else
      var t := SortByDescending(s[1..], key);
      InsertStep(s[0], t, s[1..], key);
      assert s == [s[0]] + s[1..];
      Insert(s[0], t, key)
  }

  /** Inserting into a sorted arrangement of `rest` gives a sorted arrangement of `[x] + rest`. */
  lemma InsertStep<T>(x: T, t: seq<T>, rest: seq<T>, key: T -> int)
    requires multiset(t) == multiset(rest) && NonIncreasing(t, key)
    requires forall k :: Ties(t, key, k) == Ties(rest, key, k)
    ensures multiset(Insert(x, t, key)) == multiset([x] + rest)
    ensures NonIncreasing(Insert(x, t, key), key)
    ensures forall k :: Ties(Insert(x, t, key), key, k) == Ties([x] + rest, key, k)
  {
    InsertMultiset(x, t, key);
    InsertSorted(x, t, key);
    forall k
      ensures Ties(Insert(x, t, key), key, k) == Ties([x] + rest, key, k)
    {
      InsertTies(x, t, key, k);
      TiesCons(x, rest, key, k);
    }
  }

  /** Two elements sort into descending key order; on equal keys the first stays first. */
  lemma SortPair<T>(a: T, b: T, key: T -> int)
    ensures SortByDescending([a, b], key) == if key(a) >= key(b) then [a, b] else [b, a]
  {
    assert [a, b][1..] == [b];
    assert SortByDescending([b], key) == Insert(b, [], key) by {
      assert [b][1..] == [];
    }
  }
}
