/** Sorting by a real-valued key, as `np.argsort` followed by indexing and as `np.sort`. */
module Sorting {
  predicate SortedBy<T>(s: seq<T>, key: T -> real)
  {
    forall i, j :: 0 <= i < j < |s| ==> key(s[i]) <= key(s[j])
  }

  function InsertBy<T>(x: T, s: seq<T>, key: T -> real): (r: seq<T>)
    ensures |r| == |s| + 1
    ensures multiset(r) == multiset(s) + multiset{x}
  {
    if s == [] then [x]
    else if key(x) <= key(s[0]) then [x] + s
    else
      assert s == [s[0]] + s[1..];
      [s[0]] + InsertBy(x, s[1..], key)
  }

  lemma {:induction false} InsertBySorted<T>(x: T, s: seq<T>, key: T -> real)
    requires SortedBy(s, key)
    ensures SortedBy(InsertBy(x, s, key), key)
  {
    if s != [] && key(s[0]) < key(x) {
      var rest := InsertBy(x, s[1..], key);
      InsertBySorted(x, s[1..], key);
      forall k | 0 <= k < |rest|
        ensures key(s[0]) <= key(rest[k])
      {
        assert rest[k] in multiset(rest);
        if rest[k] != x {
          assert rest[k] in multiset(s[1..]);
          var m :| 0 <= m < |s[1..]| && s[1..][m] == rest[k];
          assert s[m + 1] == rest[k];
        }
      }
    }
  }

  /** Insertion sort: the result is ordered by key and is a permutation of the input. */
  function SortBy<T>(s: seq<T>, key: T -> real): (t: seq<T>)
    ensures multiset(t) == multiset(s)
    ensures SortedBy(t, key)
  {
    if s == [] then []
    else
      assert s == [s[0]] + s[1..];
      InsertBySorted(s[0], SortBy(s[1..], key), key);
      InsertBy(s[0], SortBy(s[1..], key), key)
  }

  function Id(x: real): real { x }

  /** Python's `a <= b` on strings: lexicographic by code point, a prefix first. */
  predicate LexLeq(a: string, b: string)
  {
    a == [] || (b != [] && (a[0] < b[0] || (a[0] == b[0] && LexLeq(a[1..], b[1..]))))
  }

  /** Any two strings are ordered one way or the other. */
  lemma {:induction false} LexTotal(a: string, b: string)
    ensures LexLeq(a, b) || LexLeq(b, a)
  {
    if a != [] && b != [] && a[0] == b[0] {
      LexTotal(a[1..], b[1..]);
    }
  }

  lemma {:induction false} LexTrans(a: string, b: string, c: string)
    requires LexLeq(a, b) && LexLeq(b, c)
    ensures LexLeq(a, c)
  {
    if a != [] && a[0] == b[0] && b[0] == c[0] {
      LexTrans(a[1..], b[1..], c[1..]);
    }
  }

  predicate LexSorted(s: seq<string>)
  {
    forall i, j :: 0 <= i < j < |s| ==> LexLeq(s[i], s[j])
  }

  function InsertName(x: string, s: seq<string>): (r: seq<string>)
    ensures |r| == |s| + 1
    ensures multiset(r) == multiset(s) + multiset{x}
  {
    if s == [] then [x]
    else if LexLeq(x, s[0]) then [x] + s
    else
      assert s == [s[0]] + s[1..];
      [s[0]] + InsertName(x, s[1..])
  }

  lemma {:induction false} InsertNameSorted(x: string, s: seq<string>)
    requires LexSorted(s)
    ensures LexSorted(InsertName(x, s))
  {
    if s != [] && LexLeq(x, s[0]) {
      forall j | 0 <= j < |s|
        ensures LexLeq(x, s[j])
      {
        if j > 0 {
          LexTrans(x, s[0], s[j]);
        }
      }
    } else if s != [] {
      var rest := InsertName(x, s[1..]);
      InsertNameSorted(x, s[1..]);
      LexTotal(x, s[0]);
      forall k | 0 <= k < |rest|
        ensures LexLeq(s[0], rest[k])
      {
        assert rest[k] in multiset(rest);
        if rest[k] != x {
          assert rest[k] in multiset(s[1..]);
          var m :| 0 <= m < |s[1..]| && s[1..][m] == rest[k];
          assert s[m + 1] == rest[k];
        }
      }
    }
  }

  /** `sorted(names)`: the names in ascending string order, a permutation of the input. */
  function SortNames(s: seq<string>): (t: seq<string>)
    ensures multiset(t) == multiset(s)
    ensures LexSorted(t)
  {
    if s == [] then []
    else
      assert s == [s[0]] + s[1..];
      InsertNameSorted(s[0], SortNames(s[1..]));
      InsertName(s[0], SortNames(s[1..]))
  }
}
