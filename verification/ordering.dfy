/**
 * Python's ordering of strings and of path objects.
 *
 * Python compares two sequences element by element: the first position where
 * they differ decides, and a proper prefix is smaller. Strings compare by code
 * point; a `PosixPath` compares as the list of its parts.
 */
module Ordering {

  ghost predicate Irreflexive<T(!new)>(less: (T, T) -> bool) {
    forall x :: !less(x, x)
  }

  ghost predicate Transitive<T(!new)>(less: (T, T) -> bool) {
    forall x, y, z :: less(x, y) && less(y, z) ==> less(x, z)
  }

  ghost predicate Trichotomous<T(!new)>(less: (T, T) -> bool) {
    forall x, y :: x != y ==> less(x, y) || less(y, x)
  }

  ghost predicate StrictTotalOrder<T(!new)>(less: (T, T) -> bool) {
    Irreflexive(less) && Transitive(less) && Trichotomous(less)
  }

  /** Lexicographic order on sequences, as Python's `<` on `str`, `list` and `tuple`. */
  predicate LexLess<T(==)>(a: seq<T>, b: seq<T>, less: (T, T) -> bool)
    decreases |a|
  {
    if |a| == 0 then |b| > 0
    else if |b| == 0 then false
    else if a[0] == b[0] then LexLess(a[1..], b[1..], less)
    else less(a[0], b[0])
  }

  lemma {:induction false} LexIrreflexive<T(!new)>(a: seq<T>, less: (T, T) -> bool)
    ensures !LexLess(a, a, less)
    decreases |a|
  {
    if |a| > 0 {
      LexIrreflexive(a[1..], less);
    }
  }

  lemma {:induction false} LexTrichotomous<T(!new)>(a: seq<T>, b: seq<T>, less: (T, T) -> bool)
    requires Trichotomous(less)
    ensures a != b ==> LexLess(a, b, less) || LexLess(b, a, less)
    decreases |a|
  {
    if |a| > 0 && |b| > 0 && a[0] == b[0] {
      LexTrichotomous(a[1..], b[1..], less);
      if a[1..] == b[1..] {
        assert a == [a[0]] + a[1..] && b == [b[0]] + b[1..];
      }
    }
  }

  lemma {:induction false} LexTransitive<T(!new)>(a: seq<T>, b: seq<T>, c: seq<T>, less: (T, T) -> bool)
    requires Irreflexive(less) && Transitive(less)
    requires LexLess(a, b, less) && LexLess(b, c, less)
    ensures LexLess(a, c, less)
    decreases |a|
  {
    if |a| > 0 && a[0] == b[0] && b[0] == c[0] {
      LexTransitive(a[1..], b[1..], c[1..], less);
    }
  }

  /** Lexicographic order is a strict total order whenever the element order is. */
  lemma LexStrictTotalOrder<T(!new)>(less: (T, T) -> bool)
    requires StrictTotalOrder(less)
    ensures forall a: seq<T> :: !LexLess(a, a, less)
    ensures forall a: seq<T>, b: seq<T> :: a != b ==> LexLess(a, b, less) || LexLess(b, a, less)
    ensures forall a: seq<T>, b: seq<T>, c: seq<T> :: LexLess(a, b, less) && LexLess(b, c, less) ==> LexLess(a, c, less)
  {
    forall a: seq<T> ensures !LexLess(a, a, less) {
      LexIrreflexive(a, less);
    }
    forall a: seq<T>, b: seq<T> ensures a != b ==> LexLess(a, b, less) || LexLess(b, a, less) {
      LexTrichotomous(a, b, less);
    }
    forall a: seq<T>, b: seq<T>, c: seq<T> | LexLess(a, b, less) && LexLess(b, c, less)
      ensures LexLess(a, c, less)
    {
      LexTransitive(a, b, c, less);
    }
  }

  /** Code-point order on characters. */
  predicate CharLess(x: char, y: char) {
    x < y
  }

  /** Python's `<` on `str`. */
  predicate StrLess(a: string, b: string) {
    LexLess(a, b, CharLess)
  }

  /** Python's `<` on two `PosixPath`s below one directory: their parts compared as lists. */
  predicate PathLess(p: seq<string>, q: seq<string>) {
    LexLess(p, q, StrLess)
  }

  lemma StrLessIsStrictTotalOrder()
    ensures StrictTotalOrder(StrLess)
  {
    assert StrictTotalOrder(CharLess);
    LexStrictTotalOrder(CharLess);
  }

  lemma PathLessIsStrictTotalOrder()
    ensures StrictTotalOrder(PathLess)
  {
    StrLessIsStrictTotalOrder();
    LexStrictTotalOrder(StrLess);
  }
}
