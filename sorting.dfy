/**
 * The contract of `std::sort` with a strict weak ordering, for the two colour rankings of the
 * frequency cut: the result is a permutation of the input, ordered by the comparator. When the
 * comparator is a strict total order on the elements and the elements are distinct, that result
 * is unique, so it does not matter in which order the elements arrived.
 *
 * The sort itself is written as an insertion sort; only its contract stands for `std::sort`.
 */
module Sorting {

  /** Every element comes strictly before every later one. */
  predicate Sorted<T>(s: seq<T>, less: (T, T) -> bool) {
    forall i, j | 0 <= i < j < |s| :: less(s[i], s[j])
  }

  /** `less` is a strict total order on the values in `elems`. */
  predicate StrictTotalOn<T(==)>(elems: set<T>, less: (T, T) -> bool) {
    && (forall x | x in elems :: !less(x, x))
    && (forall x, y | x in elems && y in elems && less(x, y) :: !less(y, x))
    && (forall x, y, z | x in elems && y in elems && z in elems && less(x, y) && less(y, z) :: less(x, z))
    && (forall x, y | x in elems && y in elems && x != y :: less(x, y) || less(y, x))
  }

  /** No value occurs twice. */
  predicate Distinct<T(==)>(s: seq<T>) {
    forall i, j | 0 <= i < j < |s| :: s[i] != s[j]
  }

  /** `x` placed after every element that comes before it. */
  function Insert<T>(x: T, s: seq<T>, less: (T, T) -> bool): (r: seq<T>)
    ensures multiset(r) == multiset(s) + multiset{x}
  {
    if s == [] then [x]
    else if less(s[0], x) then
      assert s == [s[0]] + s[1..];
      [s[0]] + Insert(x, s[1..], less)
    else [x] + s
  }

  /** Insertion sort. */
  function Sort<T>(s: seq<T>, less: (T, T) -> bool): (r: seq<T>)
    ensures multiset(r) == multiset(s)
  {
    if s == [] then []
    else
      assert s == [s[0]] + s[1..];
      Insert(s[0], Sort(s[1..], less), less)
  }

  lemma {:induction false} InsertSorted<T>(x: T, s: seq<T>, less: (T, T) -> bool, elems: set<T>)
    requires StrictTotalOn(elems, less) && x in elems && forall y | y in s :: y in elems
    requires Sorted(s, less) && x !in s
    ensures Sorted(Insert(x, s, less), less)
  {
    if s != [] {
      if less(s[0], x) {
        var tail := s[1..];
        assert forall y | y in tail :: y in s;
        InsertSorted(x, tail, less, elems);
        var rest := Insert(x, tail, less);
        forall y | y in rest
          ensures less(s[0], y)
        {
          assert y in multiset(rest);
          if y != x {
            var k :| 0 <= k < |tail| && tail[k] == y;
            assert s[k + 1] == y;
          }
        }
      } else {
        assert s[0] in s;
        forall k | 0 <= k < |s|
          ensures less(x, s[k])
        {
          if k > 0 {
            assert s[k] in s;
          }
        }
      }
    }
  }

  /** Sorting distinct values with a strict total order gives a sorted sequence. */
  lemma {:induction false} SortSorted<T>(s: seq<T>, less: (T, T) -> bool, elems: set<T>)
    requires StrictTotalOn(elems, less) && Distinct(s) && forall y | y in s :: y in elems
    ensures Sorted(Sort(s, less), less)
  {
    if s != [] {
      var tail := s[1..];
      assert forall y | y in tail :: y in s;
      SortSorted(tail, less, elems);
      assert s[0] !in tail;
      assert s[0] !in multiset(Sort(tail, less));
      assert forall y | y in Sort(tail, less) :: y in multiset(tail);
      InsertSorted(s[0], Sort(tail, less), less, elems);
    }
  }

  /**
   * Two sorted sequences with the same values are the same sequence: a strict total order
   * leaves only one way to arrange them.
   */
  lemma {:induction false} SortedUnique<T>(a: seq<T>, b: seq<T>, less: (T, T) -> bool, elems: set<T>)
    requires StrictTotalOn(elems, less) && forall y | y in a :: y in elems
    requires Sorted(a, less) && Sorted(b, less)
    requires forall y :: y in a <==> y in b
    ensures a == b
  {
    assert a == [] <==> b == [] by {
      if a != [] {
        assert a[0] in b;
      }
      if b != [] {
        assert b[0] in a;
      }
    }
    if a != [] {
      assert b[0] in a && a[0] in b;
      var i :| 0 <= i < |a| && a[i] == b[0];
      var j :| 0 <= j < |b| && b[j] == a[0];
      assert a[0] == b[0];
      var ta, tb := a[1..], b[1..];
      forall y
        ensures y in ta <==> y in tb
      {
        if y in ta {
          var i :| 0 <= i < |ta| && ta[i] == y;
          assert less(a[0], a[i + 1]);
          assert y in b && y != b[0];
          var j :| 0 <= j < |b| && b[j] == y;
          assert tb[j - 1] == y;
        }
        if y in tb {
          var j :| 0 <= j < |tb| && tb[j] == y;
          assert less(b[0], b[j + 1]);
          assert y in a && y != a[0];
          var i :| 0 <= i < |a| && a[i] == y;
          assert ta[i - 1] == y;
        }
      }
      assert forall y | y in ta :: y in a;
      SortedUnique(ta, tb, less, elems);
      assert a == [a[0]] + ta && b == [b[0]] + tb;
    }
  }

  /** A sorted sequence has no value twice. */
  lemma SortedDistinct<T>(s: seq<T>, less: (T, T) -> bool, elems: set<T>)
    requires StrictTotalOn(elems, less) && forall y | y in s :: y in elems
    requires Sorted(s, less)
    ensures Distinct(s)
  {
    forall i, j | 0 <= i < j < |s|
      ensures s[i] != s[j]
    {
      assert s[i] in s;
    }
  }
}
