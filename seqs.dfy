/** Generic facts about sequences used by the table operations: boolean-mask selection and
    element-wise mapping of rows. */
module Seqs {

  /** No element occurs twice (column labels of a frame, the allow-list). */
  predicate Distinct<T(==)>(s: seq<T>) {
    forall i, j :: 0 <= i < j < |s| ==> s[i] != s[j]
  }

  /** `u` occurs strictly before `v` in `s`. */
  ghost predicate Before<T>(s: seq<T>, u: T, v: T) {
    exists a, b :: 0 <= a < b < |s| && s[a] == u && s[b] == v
  }

  /** Boolean-mask selection `s[mask]`: the elements satisfying `p`, in their original order.
      Sound and complete for membership. */
  function Filter<T(==,!new)>(s: seq<T>, p: T -> bool): (r: seq<T>)
    ensures |r| <= |s|
    ensures forall x :: x in r <==> x in s && p(x)
  {
    if s == [] then []
    else
      var rest := Filter(s[1..], p);
      if p(s[0]) then [s[0]] + rest else rest
  }

  /** `FilterCount` for every element at once. */
  lemma FilterCounts<T(!new)>(s: seq<T>, p: T -> bool)
    ensures forall x :: multiset(Filter(s, p))[x] == if p(x) then multiset(s)[x] else 0
  {
    forall x ensures multiset(Filter(s, p))[x] == if p(x) then multiset(s)[x] else 0 {
      FilterCount(s, p, x);
    }
  }

  /** `FilterKeepsOrder` for every pair of positions at once. */
  lemma FilterOrdered<T(!new)>(s: seq<T>, p: T -> bool)
    ensures forall i, j :: 0 <= i < j < |Filter(s, p)| ==> Before(s, Filter(s, p)[i], Filter(s, p)[j])
  {
    forall i, j | 0 <= i < j < |Filter(s, p)| ensures Before(s, Filter(s, p)[i], Filter(s, p)[j]) {
      FilterKeepsOrder(s, p, i, j);
    }
  }

  /** Selection is empty exactly when no element passes. */
  lemma FilterEmpty<T(!new)>(s: seq<T>, p: T -> bool)
    ensures Filter(s, p) == [] <==> forall i :: 0 <= i < |s| ==> !p(s[i])
  {
    if Filter(s, p) != [] {
      assert Filter(s, p)[0] in s;
    } else {
      assert forall i :: 0 <= i < |s| ==> s[i] in s;
    }
  }

  /** Selection keeps each element exactly as often as it occurs when it satisfies `p`,
      and never otherwise. */
  lemma {:induction false} FilterCount<T(!new)>(s: seq<T>, p: T -> bool, x: T)
    ensures multiset(Filter(s, p))[x] == if p(x) then multiset(s)[x] else 0
  {
    if s != [] {
      assert s == [s[0]] + s[1..];
      FilterCount(s[1..], p, x);
    }
  }

  /** Selection keeps the relative order of what it keeps. */
  lemma {:induction false} FilterKeepsOrder<T(!new)>(s: seq<T>, p: T -> bool, i: nat, j: nat)
    requires i < j < |Filter(s, p)|
    ensures Before(s, Filter(s, p)[i], Filter(s, p)[j])
  {
    var r := Filter(s, p);
    var rest := Filter(s[1..], p);
    if p(s[0]) {
      if i == 0 {
        assert r[j] in s[1..];
        var b :| 0 <= b < |s[1..]| && s[1..][b] == r[j];
        assert s[0] == r[i] && s[b + 1] == r[j];
      } else {
        FilterKeepsOrder(s[1..], p, i - 1, j - 1);
        var a, b :| 0 <= a < b < |s[1..]| && s[1..][a] == rest[i - 1] && s[1..][b] == rest[j - 1];
        assert s[a + 1] == r[i] && s[b + 1] == r[j];
      }
    } else {
      FilterKeepsOrder(s[1..], p, i, j);
      var a, b :| 0 <= a < b < |s[1..]| && s[1..][a] == rest[i] && s[1..][b] == rest[j];
      assert s[a + 1] == r[i] && s[b + 1] == r[j];
    }
  }

  /** Selecting from a sequence without repetitions gives one without repetitions. */
  lemma {:induction false} FilterDistinct<T(!new)>(s: seq<T>, p: T -> bool)
    requires Distinct(s)
    ensures Distinct(Filter(s, p))
  {
    if s != [] {
      assert s[0] !in s[1..];
      FilterDistinct(s[1..], p);
    }
  }

  /** `s.apply(g)`: `g` applied to every element, in order. */
  function MapSeq<T, U>(s: seq<T>, g: T -> U): (r: seq<U>)
    ensures |r| == |s|
    ensures forall i :: 0 <= i < |s| ==> r[i] == g(s[i])
  {
    seq(|s|, i requires 0 <= i < |s| => g(s[i]))
  }

  /** Selecting after mapping is mapping after selecting with the composed test. */
  lemma {:induction false} FilterMap<T(!new), U(!new)>(s: seq<T>, g: T -> U, p: U -> bool, q: T -> bool)
    requires forall i :: 0 <= i < |s| ==> p(g(s[i])) == q(s[i])
    ensures Filter(MapSeq(s, g), p) == MapSeq(Filter(s, q), g)
  {
    if s != [] {
      var m := MapSeq(s, g);
      assert m[1..] == MapSeq(s[1..], g);
      FilterMap(s[1..], g, p, q);
    }
  }

  /** Two successive selections are one selection with both tests. */
  lemma {:induction false} FilterFilter<T(!new)>(s: seq<T>, p: T -> bool, q: T -> bool, both: T -> bool)
    requires forall x :: both(x) == (p(x) && q(x))
    ensures Filter(Filter(s, p), q) == Filter(s, both)
  {
    if s != [] {
      FilterFilter(s[1..], p, q, both);
      if p(s[0]) {
        assert ([s[0]] + Filter(s[1..], p))[1..] == Filter(s[1..], p);
      }
    }
  }

  /** Non-decreasing by `key`. */
  predicate SortedBy<T>(s: seq<T>, key: T -> real) {
    forall i, j :: 0 <= i < j < |s| ==> key(s[i]) <= key(s[j])
  }

  /** `x` placed before the first element of `sorted` whose key is not smaller. */
  function InsertBy<T>(x: T, sorted: seq<T>, key: T -> real): seq<T> {
    if sorted == [] then [x]
    else if key(x) <= key(sorted[0]) then [x] + sorted
    else [sorted[0]] + InsertBy(x, sorted[1..], key)
  }

  lemma {:induction false} InsertByMembers<T>(x: T, sorted: seq<T>, key: T -> real, y: T)
    ensures y in InsertBy(x, sorted, key) <==> y == x || y in sorted
  {
    if sorted != [] && key(sorted[0]) < key(x) {
      InsertByMembers(x, sorted[1..], key, y);
      assert sorted == [sorted[0]] + sorted[1..];
    }
  }

  lemma {:induction false} InsertBySorted<T>(x: T, sorted: seq<T>, key: T -> real)
    requires SortedBy(sorted, key)
    ensures SortedBy(InsertBy(x, sorted, key), key)
  {
    if sorted != [] && key(sorted[0]) < key(x) {
      var rest := InsertBy(x, sorted[1..], key);
      InsertBySorted(x, sorted[1..], key);
      forall k | 0 <= k < |rest| ensures key(sorted[0]) <= key(rest[k]) {
        InsertByMembers(x, sorted[1..], key, rest[k]);
      }
    }
  }

  lemma {:induction false} InsertByMultiset<T>(x: T, sorted: seq<T>, key: T -> real)
    ensures multiset(InsertBy(x, sorted, key)) == multiset(sorted) + multiset{x}
  {
    if sorted != [] && key(sorted[0]) < key(x) {
      InsertByMultiset(x, sorted[1..], key);
      assert sorted == [sorted[0]] + sorted[1..];
    }
  }

  /** Ascending by `key`, and a permutation of its input. */
  function SortBy<T(!new)>(s: seq<T>, key: T -> real): (r: seq<T>)
    ensures SortedBy(r, key)
    ensures multiset(r) == multiset(s)
  {
    if s == [] then []
    else
      assert s == [s[0]] + s[1..];
      InsertBySorted(s[0], SortBy(s[1..], key), key);
      InsertByMultiset(s[0], SortBy(s[1..], key), key);
      InsertBy(s[0], SortBy(s[1..], key), key)
  }
}
