/** Sorting by a real-valued key, as Python's `list.sort(key=...)` does for
    the genetic algorithm's keys (by gene) and population (by objective
    value). */
module Sorting {

  /** The entries are in non-decreasing order of `f`. */
  predicate SortedBy<T>(s: seq<T>, f: T -> real) {
    forall i, j :: 0 <= i < j < |s| ==> f(s[i]) <= f(s[j])
  }

  /** `x` placed into a sorted sequence before the first entry that is not
      below it. */
  function InsertBy<T>(x: T, s: seq<T>, f: T -> real): (r: seq<T>)
    requires SortedBy(s, f)
    ensures |r| == |s| + 1
    ensures multiset(r) == multiset(s) + multiset{x}
    ensures SortedBy(r, f)
    ensures r[0] == x || (|s| > 0 && r[0] == s[0])
  {
    if s == [] || f(x) <= f(s[0]) then [x] + s
    else
      assert s == [s[0]] + s[1..];
      [s[0]] + InsertBy(x, s[1..], f)
  }

  /** Insertion sort: the same entries, in non-decreasing order of `f`. */
  function SortBy<T>(s: seq<T>, f: T -> real): (r: seq<T>)
    ensures |r| == |s|
    ensures multiset(r) == multiset(s)
    ensures SortedBy(r, f)
  {
    if s == [] then []
    else
      assert s == [s[0]] + s[1..];
      InsertBy(s[0], SortBy(s[1..], f), f)
  }

  /** An already sorted sequence whose keys are all distinct is left as it
      is. */
  lemma {:induction false} SortByFixesStrictlySorted<T>(s: seq<T>, f: T -> real)
    requires forall i, j :: 0 <= i < j < |s| ==> f(s[i]) < f(s[j])
    ensures SortBy(s, f) == s
  {
    if s != [] {
      SortByFixesStrictlySorted(s[1..], f);
      assert SortBy(s[1..], f) == s[1..];
      if |s| > 1 {
        assert f(s[0]) < f(s[1]);
      }
    }
  }
}
