/**
 * Swift's `<` on strings, taken as lexicographic order on characters, and an
 * ascending sort by a string key built on it.
 */
module StringOrder {

  /** `a < b`: `a` is a proper prefix of `b`, or the first differing character of `a` is smaller. */
  predicate Less(a: string, b: string) {
    if |b| == 0 then false
    else if |a| == 0 then true
    else if a[0] == b[0] then Less(a[1..], b[1..])
    else a[0] < b[0]
  }

  lemma {:induction false} LessAsymmetric(a: string, b: string)
    ensures Less(a, b) ==> !Less(b, a)
    ensures !Less(a, a)
  {
    if |a| > 0 && |b| > 0 {
      LessAsymmetric(a[1..], b[1..]);
    }
    if |a| > 0 {
      LessAsymmetric(a[1..], a[1..]);
    }
  }

  lemma {:induction false} LessTransitive(a: string, b: string, c: string)
    requires Less(a, b) && Less(b, c)
    ensures Less(a, c)
  {
    if |a| > 0 && a[0] == b[0] && b[0] == c[0] {
      LessTransitive(a[1..], b[1..], c[1..]);
    }
  }

  /** Any two strings are equal or one is less than the other. */
  lemma {:induction false} LessTotal(a: string, b: string)
    ensures a == b || Less(a, b) || Less(b, a)
  {
    if |a| > 0 && |b| > 0 && a[0] == b[0] {
      LessTotal(a[1..], b[1..]);
      if a[1..] == b[1..] {
        assert a == [a[0]] + a[1..] && b == [b[0]] + b[1..];
      }
    }
  }

  /** "Not less" is transitive, as a total order's `<=` is. */
  lemma NotLessTransitive(a: string, b: string, c: string)
    requires !Less(b, a) && !Less(c, b)
    ensures !Less(c, a)
  {
    LessTotal(a, b);
    if Less(a, b) && Less(c, a) {
      LessTransitive(c, a, b);
    }
  }

  /** No element's key is less than an earlier element's key. */
  predicate Ascending<T>(s: seq<T>, key: T -> string) {
    forall i, j :: 0 <= i < j < |s| ==> !Less(key(s[j]), key(s[i]))
  }

  /** Inserts `x` in front of the first element whose key is not less than its own. */
  function Insert<T>(x: T, s: seq<T>, key: T -> string): seq<T> {
    if |s| == 0 then [x]
    else if !Less(key(s[0]), key(x)) then [x] + s
    else [s[0]] + Insert(x, s[1..], key)
  }

  lemma {:induction false} InsertMultiset<T>(x: T, s: seq<T>, key: T -> string)
    ensures multiset(Insert(x, s, key)) == multiset{x} + multiset(s)
  {
    if |s| > 0 && Less(key(s[0]), key(x)) {
      InsertMultiset(x, s[1..], key);
      assert s == [s[0]] + s[1..];
    }
  }

  lemma {:induction false} InsertAscending<T>(x: T, s: seq<T>, key: T -> string)
    requires Ascending(s, key)
    ensures Ascending(Insert(x, s, key), key)
  {
    if |s| == 0 {
    } else if !Less(key(s[0]), key(x)) {
      var r := [x] + s;
      forall i, j | 0 <= i < j < |r|
        ensures !Less(key(r[j]), key(r[i]))
      {
        if i == 0 {
          if j > 1 {
            NotLessTransitive(key(x), key(s[0]), key(s[j - 1]));
          }
        }
      }
    } else {
      var t := s[1..];
      var r := Insert(x, t, key);
      InsertAscending(x, t, key);
      InsertMultiset(x, t, key);
      LessAsymmetric(key(s[0]), key(x));
      forall j | 0 <= j < |r|
        ensures !Less(key(r[j]), key(s[0]))
      {
        assert r[j] in multiset(r);
        if r[j] != x {
          assert r[j] in multiset(t);
          var i :| 0 <= i < |t| && t[i] == r[j];
          assert t[i] == s[i + 1];
        }
      }
      assert Insert(x, s, key) == [s[0]] + r;
    }
  }

  /** Sorts by ascending key, by insertion: a permutation in ascending order. */
  function SortAscending<T>(s: seq<T>, key: T -> string): (r: seq<T>)
    ensures multiset(r) == multiset(s)
    ensures Ascending(r, key)
  {
    if |s| == 0 then []
    else
      var t := SortAscending(s[1..], key);
      InsertMultiset(s[0], t, key);
      InsertAscending(s[0], t, key);
      assert s == [s[0]] + s[1..];
      Insert(s[0], t, key)
  }
}
