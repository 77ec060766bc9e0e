/**
 A stable insertion sort over an arbitrary total preorder.

 Python's `list.sort` is stable, and the directory listing is sorted with it;
 the catalogue search is ordered by an SQL `ORDER BY`. Both are modelled with
 this one sort, which is proved to return a sorted permutation of its input
 that keeps equivalent elements in their original order.
 */
module Sorting {

  /** `le` is total and transitive, so it orders every pair of elements. */
  ghost predicate TotalPreorder<T(!new)>(le: (T, T) -> bool) {
    && (forall a, b :: le(a, b) || le(b, a))
    && (forall a, b, c :: le(a, b) && le(b, c) ==> le(a, c))
  }

  predicate Sorted<T>(s: seq<T>, le: (T, T) -> bool) {
    forall i, j :: 0 <= i < j < |s| ==> le(s[i], s[j])
  }

  /** `x` and `y` sit at the same place of the order. */
  predicate Equivalent<T>(x: T, y: T, le: (T, T) -> bool) {
    le(x, y) && le(y, x)
  }

  /** The elements of `s` equivalent to `a`, in the order they appear in `s`. */
  function Peers<T>(s: seq<T>, a: T, le: (T, T) -> bool): (r: seq<T>)
    ensures |r| <= |s|
    ensures forall i :: 0 <= i < |r| ==> Equivalent(r[i], a, le)
  {
    if |s| == 0 then []
    else (if Equivalent(s[0], a, le) then [s[0]] else []) + Peers(s[1..], a, le)
  }

  /** Inserts `x` before the first element it is less than or equal to. */
  function Insert<T>(x: T, s: seq<T>, le: (T, T) -> bool): (r: seq<T>)
    ensures multiset(r) == multiset(s) + multiset{x}
    ensures |r| == |s| + 1
  {
    if |s| == 0 then [x]
    else if le(x, s[0]) then [x] + s
    else
      assert s == [s[0]] + s[1..];
      [s[0]] + Insert(x, s[1..], le)
  }

  lemma {:induction false} InsertSorted<T(!new)>(x: T, s: seq<T>, le: (T, T) -> bool)
    requires TotalPreorder(le)
    requires Sorted(s, le)
    ensures Sorted(Insert(x, s, le), le)
    decreases |s|
  {
    if |s| > 0 && !le(x, s[0]) {
      var tail := Insert(x, s[1..], le);
      InsertSorted(x, s[1..], le);
      assert le(s[0], x);
      forall k | 0 <= k < |tail|
        ensures le(s[0], tail[k])
      {
        assert tail[k] in multiset(tail);
        if tail[k] != x {
          assert tail[k] in multiset(s[1..]);
          var j :| 0 <= j < |s[1..]| && s[1..][j] == tail[k];
          assert s[j + 1] == tail[k];
        }
      }
    } else if |s| > 0 {
      var r := [x] + s;
      forall i, j | 0 <= i < j < |r|
        ensures le(r[i], r[j])
      {
        if i == 0 && j > 1 {
          assert le(s[0], s[j - 1]);
        }
      }
    }
  }

  /** Inserting keeps the relative order of the elements equivalent to `a`. */
  lemma {:induction false} InsertPeers<T(!new)>(x: T, s: seq<T>, a: T, le: (T, T) -> bool)
    requires TotalPreorder(le)
    ensures Peers(Insert(x, s, le), a, le)
         == (if Equivalent(x, a, le) then [x] else []) + Peers(s, a, le)
    decreases |s|
  {
    if |s| == 0 {
    } else if le(x, s[0]) {
      assert ([x] + s)[1..] == s;
    } else {
      var r := Insert(x, s, le);
      assert r[1..] == Insert(x, s[1..], le);
      InsertPeers(x, s[1..], a, le);
      if Equivalent(x, a, le) {
        assert !Equivalent(s[0], a, le);
      }
    }
  }

  /** Stable insertion sort. */
  function Sort<T(!new)>(s: seq<T>, le: (T, T) -> bool): (r: seq<T>)
    requires TotalPreorder(le)
    ensures Sorted(r, le)
    ensures multiset(r) == multiset(s)
    ensures |r| == |s|
  {
    if |s| == 0 then []
    else
      var rest := Sort(s[1..], le);
      InsertSorted(s[0], rest, le);
      assert s == [s[0]] + s[1..];
      Insert(s[0], rest, le)
  }

  /** The sort is stable: equivalent elements come out in input order. */
  lemma {:induction false} SortStable<T(!new)>(s: seq<T>, a: T, le: (T, T) -> bool)
    requires TotalPreorder(le)
    ensures Peers(Sort(s, le), a, le) == Peers(s, a, le)
    decreases |s|
  {
    if |s| > 0 {
      SortStable(s[1..], a, le);
      InsertPeers(s[0], Sort(s[1..], le), a, le);
    }
  }

  /** A sorted permutation is unique up to equivalent elements, so the sort is
      the identity on input that is already sorted. */
  lemma {:induction false} SortSortedIdentity<T(!new)>(s: seq<T>, le: (T, T) -> bool)
    requires TotalPreorder(le)
    requires Sorted(s, le)
    ensures Sort(s, le) == s
    decreases |s|
  {
    if |s| > 0 {
      SortSortedIdentity(s[1..], le);
      assert Sort(s[1..], le) == s[1..];
      if |s| > 1 {
        assert le(s[0], s[1]);
      }
    }
  }
}
