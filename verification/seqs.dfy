/** Sequence surgery shared by the container, the route operators and the
    genetic algorithm. */
module Seqs {

  /** The sequence with the entry at index `k` taken out; later entries move
      one place to the left. */
  function RemoveAt<T>(s: seq<T>, k: nat): (r: seq<T>)
    requires k < |s|
    ensures |r| == |s| - 1
    ensures forall i :: 0 <= i < k ==> r[i] == s[i]
    ensures forall i :: k <= i < |r| ==> r[i] == s[i + 1]
    ensures multiset(r) + multiset{s[k]} == multiset(s)
  {
    assert s == s[..k] + [s[k]] + s[k + 1..];
    s[..k] + s[k + 1..]
  }

  /** The sequence with `v` placed at index `k`; the entries from `k` on move
      one place to the right. */
  function InsertAt<T>(s: seq<T>, k: nat, v: T): (r: seq<T>)
    requires k <= |s|
    ensures |r| == |s| + 1
    ensures r[k] == v
    ensures forall i :: 0 <= i < k ==> r[i] == s[i]
    ensures forall i :: k <= i < |s| ==> r[i + 1] == s[i]
    ensures multiset(r) == multiset(s) + multiset{v}
  {
    assert s == s[..k] + s[k..];
    s[..k] + [v] + s[k..]
  }

  /** The position Python makes of index `k` on a list of length `n` when
      it inserts (`list.insert`) or cuts (`s[:k]`, `s[k:]`): a negative
      index counts from the end, and indices past either end are clamped. */
  function ClampIndex(k: int, n: nat): (r: nat)
    ensures r <= n
    ensures 0 <= k <= n ==> r == k
    ensures k > n ==> r == n
    ensures -(n as int) <= k < 0 ==> r == n as int + k
    ensures k < -(n as int) ==> r == 0
  {
    if k < 0 then (if k + n < 0 then 0 else k + n)
    else if k > n then n
    else k
  }

  /** Where the entry at index `i` comes from after the entry at index
      `from` has been moved to index `to`: the moved entry lands on `to`,
      the entries strictly between the two places shift by one toward the
      vacated place, and every other entry stays put. */
  function MovedFrom(from: nat, to: nat, i: nat): nat {
    if i == to then from
    else if from < to && from <= i < to then i + 1
    else if to < from && to < i <= from then i - 1
    else i
  }

  /** The order that results from moving the entry at index `from` to index
      `to`, described entry by entry. */
  ghost function Shifted<T>(items: seq<T>, from: nat, to: nat): (r: seq<T>)
    requires from < |items| && to < |items|
  {
    seq(|items|, i requires 0 <= i < |items| => items[MovedFrom(from, to, i)])
  }

  /** Taking an entry out and putting it back at another index is the shift
      that `Shifted` describes. */
  lemma RemoveInsertIsShift<T>(items: seq<T>, from: nat, to: nat)
    requires from < |items| && to < |items|
    ensures InsertAt(RemoveAt(items, from), to, items[from]) == Shifted(items, from, to)
  {
    var rest := RemoveAt(items, from);
    var r := InsertAt(rest, to, items[from]);
    var s := Shifted(items, from, to);
    forall i | 0 <= i < |items| ensures r[i] == s[i] {
      if i < to {
        assert r[i] == rest[i];
      } else if i > to {
        assert r[i] == rest[i - 1];
      }
    }
  }

  /** Index of the first entry whose key is `k`. */
  function FirstIndexOf<T, K(==)>(s: seq<T>, key: T -> K, k: K): (r: nat)
    requires exists i :: 0 <= i < |s| && key(s[i]) == k
    ensures r < |s| && key(s[r]) == k
    ensures forall i :: 0 <= i < r ==> key(s[i]) != k
  {
    if key(s[0]) == k then 0
    else
      assert exists i :: 0 <= i < |s[1..]| && key(s[1..][i]) == k by {
        var i :| 0 <= i < |s| && key(s[i]) == k;
        assert s[1..][i - 1] == s[i];
      }
      1 + FirstIndexOf(s[1..], key, k)
  }

  /** No value occurs twice. */
  predicate NoDup<T(==)>(s: seq<T>) {
    forall a, b :: 0 <= a < b < |s| ==> s[a] != s[b]
  }

  /** Distinct entries are exactly the sequences that count every value at
      most once. */
  lemma {:induction false} NoDupIffCountsAtMostOne<T>(s: seq<T>)
    ensures NoDup(s) <==> forall x :: multiset(s)[x] <= 1
  {
    if s == [] {
    } else {
      var t := s[1..];
      assert s == [s[0]] + t;
      NoDupIffCountsAtMostOne(t);
      if NoDup(s) {
        assert NoDup(t) by {
          forall a, b | 0 <= a < b < |t| ensures t[a] != t[b] {
            assert t[a] == s[a + 1] && t[b] == s[b + 1];
          }
        }
        assert s[0] !in t;
        forall x ensures multiset(s)[x] <= 1 {
          assert multiset(s) == multiset{s[0]} + multiset(t);
        }
      } else {
        var a, b :| 0 <= a < b < |s| && s[a] == s[b];
        var x := s[a];
        if a == 0 {
          assert t[b - 1] == x;
          assert x in multiset(t);
          assert multiset(s) == multiset{s[0]} + multiset(t);
          assert multiset(s)[x] >= 2;
        } else {
          assert t[a - 1] == x && t[b - 1] == x;
          assert !NoDup(t);
          var y :| multiset(t)[y] > 1;
          assert multiset(s) == multiset{s[0]} + multiset(t);
          assert multiset(s)[y] > 1;
        }
      }
    }
  }

  /** Rearranging a sequence keeps its entries distinct. */
  lemma NoDupPermutation<T>(s: seq<T>, t: seq<T>)
    requires multiset(s) == multiset(t)
    requires NoDup(s)
    ensures NoDup(t)
  {
    NoDupIffCountsAtMostOne(s);
    NoDupIffCountsAtMostOne(t);
  }

  /** The entries of `s`, each mapped through `f`. */
  function Map<T, U>(s: seq<T>, f: T -> U): (r: seq<U>)
    ensures |r| == |s|
    ensures forall i :: 0 <= i < |s| ==> r[i] == f(s[i])
  {
    if s == [] then [] else [f(s[0])] + Map(s[1..], f)
  }

  /** Every entry of every sequence, counted with multiplicity. */
  ghost function Bag<T>(ss: seq<seq<T>>): multiset<T> {
    if ss == [] then multiset{} else Bag(ss[..|ss| - 1]) + multiset(ss[|ss| - 1])
  }

  /** The bag of a sequence of sequences is that of any one member plus
      that of the rest, with that member emptied. */
  lemma {:induction false} BagSplit<T>(ss: seq<seq<T>>, k: nat)
    requires k < |ss|
    ensures Bag(ss) == Bag(ss[k := []]) + multiset(ss[k])
  {
    var n := |ss|;
    var u := ss[k := []];
    if k == n - 1 {
      assert u[..n - 1] == ss[..n - 1];
      assert Bag(u) == Bag(u[..n - 1]) + multiset(u[n - 1]);
    } else {
      assert u[..n - 1] == ss[..n - 1][k := []];
      assert u[n - 1] == ss[n - 1];
      assert ss[..n - 1][k] == ss[k];
      BagSplit(ss[..n - 1], k);
      calc {
        Bag(ss);
        Bag(ss[..n - 1]) + multiset(ss[n - 1]);
        Bag(u[..n - 1]) + multiset(ss[k]) + multiset(ss[n - 1]);
        Bag(u[..n - 1]) + multiset(u[n - 1]) + multiset(ss[k]);
        Bag(u) + multiset(ss[k]);
      }
    }
  }

  /** A sequence of empty sequences has an empty bag. */
  lemma {:induction false} BagOfEmpties<T>(ss: seq<seq<T>>)
    requires forall k :: 0 <= k < |ss| ==> ss[k] == []
    ensures Bag(ss) == multiset{}
  {
    if ss != [] {
      BagOfEmpties(ss[..|ss| - 1]);
    }
  }
}
