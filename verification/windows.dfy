/**
 * Kotlin's list operations behind every paged query: `drop(n).take(m)`, the
 * paging window, and `filter`, the row selection that keeps query order.
 */
module Windows {

  function Min(a: int, b: int): int {
    if a <= b then a else b
  }

  /** `drop(n)`: everything after the first `n` elements (all of them when `n <= 0`). */
  function Drop<T>(s: seq<T>, n: int): (r: seq<T>)
    ensures |r| == if n <= 0 then |s| else if n >= |s| then 0 else |s| - n
    ensures n <= 0 ==> r == s
    ensures 0 <= n ==> r == s[Min(n, |s|)..]
  {
    if n <= 0 then s else if n >= |s| then [] else s[n..]
  }

  /** `take(n)`: the first `n` elements (none when `n <= 0`). */
  function Take<T>(s: seq<T>, n: int): (r: seq<T>)
    ensures |r| == if n <= 0 then 0 else if n >= |s| then |s| else n
    ensures 0 <= n ==> r == s[..Min(n, |s|)]
  {
    if n <= 0 then [] else if n >= |s| then s else s[..n]
  }

  /** The page `[offset, offset + limit)` of `s`. */
  function Window<T>(s: seq<T>, offset: int, limit: int): seq<T> {
    Take(Drop(s, offset), limit)
  }

  /** A page holds exactly the elements at positions `offset ..` of `s`, at most `limit` of them. */
  lemma WindowElements<T>(s: seq<T>, offset: nat, limit: nat)
    ensures |Window(s, offset, limit)| <= limit
    ensures offset >= |s| ==> Window(s, offset, limit) == []
    ensures forall i :: 0 <= i < |Window(s, offset, limit)| ==>
      offset + i < |s| && Window(s, offset, limit)[i] == s[offset + i]
  {
  }

  /** A page that starts inside `s` is the slice of `s` of its own length, cut short only by the end of `s`. */
  lemma WindowSlice<T>(s: seq<T>, offset: nat, limit: nat)
    requires offset <= |s|
    ensures offset + |Window(s, offset, limit)| <= |s|
    ensures Window(s, offset, limit) == s[offset..offset + |Window(s, offset, limit)|]
    ensures |Window(s, offset, limit)| < limit ==> offset + |Window(s, offset, limit)| == |s|
  {
  }

  /** A page is the slice of `s` between its two bounds, each cut at the end of `s`. */
  lemma WindowIsSlice<T>(s: seq<T>, offset: nat, limit: nat)
    ensures Min(offset, |s|) <= Min(offset + limit, |s|)
    ensures Window(s, offset, limit) == s[Min(offset, |s|)..Min(offset + limit, |s|)]
  {
    if offset < |s| {
      assert Drop(s, offset) == s[offset..];
      if limit < |s| - offset {
        assert s[offset..][..limit] == s[offset..offset + limit];
      }
    }
  }

  /** Consecutive pages concatenate to the page that spans both. */
  lemma {:induction false} AdjacentWindows<T>(s: seq<T>, offset: nat, a: nat, b: nat)
    ensures Window(s, offset, a) + Window(s, offset + a, b) == Window(s, offset, a + b)
  {
    var lo, mid, hi := Min(offset, |s|), Min(offset + a, |s|), Min(offset + a + b, |s|);
    WindowBounds(s, offset, a, lo, mid);
    WindowBounds(s, offset + a, b, mid, hi);
    WindowBounds(s, offset, a + b, lo, hi);
    SliceConcat(s, Window(s, offset, a), Window(s, offset + a, b), Window(s, offset, a + b), lo, mid, hi);
  }

  /** `WindowIsSlice` with the two bounds named. */
  lemma WindowBounds<T>(s: seq<T>, offset: nat, limit: nat, lo: nat, hi: nat)
    requires lo == Min(offset, |s|) && hi == Min(offset + limit, |s|)
    ensures lo <= hi <= |s| && Window(s, offset, limit) == s[lo..hi]
  {
    WindowIsSlice(s, offset, limit);
  }

  /** Adjacent slices of one sequence concatenate to the slice spanning both. */
  lemma SliceConcat<T>(s: seq<T>, left: seq<T>, right: seq<T>, both: seq<T>, lo: nat, mid: nat, hi: nat)
    requires lo <= mid <= hi <= |s|
    requires left == s[lo..mid] && right == s[mid..hi] && both == s[lo..hi]
    ensures left + right == both
  {
  }

  /** `filter`: the elements that pass `keep`, in their original order. */
  function Filter<T>(s: seq<T>, keep: T -> bool): (r: seq<T>)
    ensures |r| <= |s|
    ensures forall i :: 0 <= i < |r| ==> r[i] in s && keep(r[i])
    ensures forall i :: 0 <= i < |s| && keep(s[i]) ==> s[i] in r
  {
    if |s| == 0 then [] else (if keep(s[0]) then [s[0]] else []) + Filter(s[1..], keep)
  }

  /** Filtering a concatenation filters each part and keeps them in order. */
  lemma {:induction false} FilterAppend<T>(a: seq<T>, b: seq<T>, keep: T -> bool)
    ensures Filter(a + b, keep) == Filter(a, keep) + Filter(b, keep)
  {
    if |a| == 0 {
      assert a + b == b;
    } else {
      var head := if keep(a[0]) then [a[0]] else [];
      assert (a + b)[0] == a[0];
      assert (a + b)[1..] == a[1..] + b;
      FilterAppend(a[1..], b, keep);
      assert head + (Filter(a[1..], keep) + Filter(b, keep)) == (head + Filter(a[1..], keep)) + Filter(b, keep);
    }
  }
}
