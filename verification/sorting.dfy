/**
 * Python's `sorted`, as a stable insertion sort over a comparison `less`,
 * and the fact that a strictly sorted arrangement of given elements is unique.
 */
module Sorting {
  import opened Ordering

  /** Every element is strictly below every later one. */
  ghost predicate StrictlySorted<T>(s: seq<T>, less: (T, T) -> bool) {
    forall i, j :: 0 <= i < j < |s| ==> less(s[i], s[j])
  }

  /** Any two elements at different positions are ordered one way or the other. */
  ghost predicate PairwiseComparable<T>(s: seq<T>, less: (T, T) -> bool) {
    forall i, j :: 0 <= i < j < |s| ==> less(s[i], s[j]) || less(s[j], s[i])
  }

  /** Puts `x` before the first element of `t` that is not below it (so ties keep input order). */
  function Insert<T>(x: T, t: seq<T>, less: (T, T) -> bool): (r: seq<T>)
    ensures multiset(r) == multiset(t) + multiset{x}
    ensures |r| == |t| + 1
  {
    if |t| == 0 || !less(t[0], x) then [x] + t
    else
      assert t == [t[0]] + t[1..];
      [t[0]] + Insert(x, t[1..], less)
  }

  /** Stable insertion sort: the result is a permutation of the input. */
  function Sort<T>(s: seq<T>, less: (T, T) -> bool): (r: seq<T>)
    ensures multiset(r) == multiset(s)
    ensures |r| == |s|
  {
    if |s| == 0 then []
    else
      assert s == [s[0]] + s[1..];
      Insert(s[0], Sort(s[1..], less), less)
  }

  lemma {:induction false} InsertStrictlySorted<T(!new)>(x: T, t: seq<T>, less: (T, T) -> bool)
    requires Transitive(less)
    requires StrictlySorted(t, less)
    requires forall y :: y in t ==> less(x, y) || less(y, x)
    ensures StrictlySorted(Insert(x, t, less), less)
  {
    if |t| == 0 || !less(t[0], x) {
      assert t == [] || less(x, t[0]);
    } else {
      InsertStrictlySorted(x, t[1..], less);
      var r := Insert(x, t, less);
      var rest := Insert(x, t[1..], less);
      assert r == [t[0]] + rest;
      InsertAbove(x, t[1..], less, t[0]);
      forall i, j | 0 <= i < j < |r| ensures less(r[i], r[j]) {
        if i == 0 {
          assert r[j] in rest;
        } else {
          assert r[i] == rest[i - 1] && r[j] == rest[j - 1];
        }
      }
    }
  }

  /** Inserting an element above `lo` into a sequence above `lo` keeps everything above `lo`. */
  lemma InsertAbove<T>(x: T, t: seq<T>, less: (T, T) -> bool, lo: T)
    requires less(lo, x)
    requires forall y :: y in t ==> less(lo, y)
    ensures forall z :: z in Insert(x, t, less) ==> less(lo, z)
  {
    forall z | z in Insert(x, t, less) ensures less(lo, z) {
      assert z in multiset(Insert(x, t, less));
      if z != x {
        assert z in multiset(t);
      }
    }
  }

  /** Sorting elements that are pairwise comparable yields a strictly increasing sequence. */
  lemma {:induction false} SortStrictlySorted<T(!new)>(s: seq<T>, less: (T, T) -> bool)
    requires Transitive(less)
    requires PairwiseComparable(s, less)
    ensures StrictlySorted(Sort(s, less), less)
  {
    if |s| > 0 {
      var tail := s[1..];
      assert PairwiseComparable(tail, less) by {
        forall i, j | 0 <= i < j < |tail| ensures less(tail[i], tail[j]) || less(tail[j], tail[i]) {
          assert tail[i] == s[i + 1] && tail[j] == s[j + 1];
        }
      }
      SortStrictlySorted(tail, less);
      forall y | y in Sort(tail, less) ensures less(s[0], y) || less(y, s[0]) {
        assert y in multiset(Sort(tail, less));
        var k :| 0 <= k < |tail| && tail[k] == y;
        assert s[k + 1] == y;
      }
      InsertStrictlySorted(s[0], Sort(tail, less), less);
    }
  }

  /** A sequence with no members is empty. */
  lemma NoMembersMeansEmpty<T>(s: seq<T>)
    ensures (forall x :: x !in s) ==> s == []
  {
    if |s| > 0 {
      assert s[0] in s;
    }
  }

  /** Two strictly sorted sequences with the same elements are equal. */
  lemma {:induction false} StrictlySortedUnique<T(!new)>(a: seq<T>, b: seq<T>, less: (T, T) -> bool)
    requires Irreflexive(less) && Transitive(less)
    requires StrictlySorted(a, less) && StrictlySorted(b, less)
    requires forall x :: x in a <==> x in b
    ensures a == b
    decreases |a|
  {
    NoMembersMeansEmpty(a);
    NoMembersMeansEmpty(b);
    if |a| > 0 {
      var a0 := a[0];
      assert a0 in a;
      assert a0 in b;
      var b0 := b[0];
      assert b0 in b;
      assert b0 in a;
      var i :| 0 <= i < |a| && a[i] == b0;
      var j :| 0 <= j < |b| && b[j] == a0;
      assert i == 0 || less(a0, b0);
      assert j == 0 || less(b0, a0);
      assert !less(a0, a0);
      assert a0 == b0;
      assert a == [a0] + a[1..] && b == [b0] + b[1..];
      forall x ensures x in a[1..] <==> x in b[1..] {
        if x in a[1..] {
          var k :| 0 <= k < |a[1..]| && a[1..][k] == x;
          assert a[k + 1] == x;
          assert less(a0, x);
          assert x in b && x != b0;
        }
        if x in b[1..] {
          var k :| 0 <= k < |b[1..]| && b[1..][k] == x;
          assert b[k + 1] == x;
          assert less(b0, x);
          assert x in a && x != a0;
        }
      }
      StrictlySortedUnique(a[1..], b[1..], less);
    }
  }
}
