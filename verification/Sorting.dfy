/** The contract of the C library's `qsort`, which the callers take as a parameter. */
module Sorting {

  ghost predicate TotalPreorder<T(!new)>(leq: (T, T) -> bool) {
    && (forall x, y :: leq(x, y) || leq(y, x))
    && (forall x, y, z :: leq(x, y) && leq(y, z) ==> leq(x, z))
  }

  ghost predicate Sorted<T>(s: seq<T>, leq: (T, T) -> bool) {
    forall i, j | 0 <= i < j < |s| :: leq(s[i], s[j])
  }

  type Sorter<!T> = (seq<T>, (T, T) -> bool) -> seq<T>

  /** A sorter returns some sorted permutation; ties may come out in any order. */
  ghost predicate IsSorter<T(!new)>(qsort: Sorter<T>) {
    forall s, leq | TotalPreorder(leq) :: Sorted(qsort(s, leq), leq) && multiset(qsort(s, leq)) == multiset(s)
  }

  function Insert<T>(x: T, s: seq<T>, leq: (T, T) -> bool): seq<T> {
    if s == [] || leq(x, s[0]) then [x] + s else [s[0]] + Insert(x, s[1..], leq)
  }

  function InsertionSort<T>(s: seq<T>, leq: (T, T) -> bool): seq<T> {
    if s == [] then [] else Insert(s[0], InsertionSort(s[1..], leq), leq)
  }

  lemma {:induction false} InsertPermutes<T>(x: T, s: seq<T>, leq: (T, T) -> bool)
    ensures multiset(Insert(x, s, leq)) == multiset{x} + multiset(s)
  {
    if s != [] && !leq(x, s[0]) {
      InsertPermutes(x, s[1..], leq);
      assert s == [s[0]] + s[1..];
    }
  }

  lemma {:induction false} InsertSorted<T(!new)>(x: T, s: seq<T>, leq: (T, T) -> bool)
    requires TotalPreorder(leq) && Sorted(s, leq)
    ensures Sorted(Insert(x, s, leq), leq)
  {
    if s != [] && !leq(x, s[0]) {
      InsertSorted(x, s[1..], leq);
      InsertPermutes(x, s[1..], leq);
      var r := Insert(x, s[1..], leq);
      forall i | 0 <= i < |r| ensures leq(s[0], r[i]) {
        assert r[i] in multiset(r);
      }
    }
  }

  lemma {:induction false} InsertionSorts<T(!new)>(s: seq<T>, leq: (T, T) -> bool)
    requires TotalPreorder(leq)
    ensures Sorted(InsertionSort(s, leq), leq) && multiset(InsertionSort(s, leq)) == multiset(s)
  {
    hide TotalPreorder, Sorted, Insert;
    if s == [] {
      EmptySorted(leq);
    } else {
      InsertionSorts(s[1..], leq);
      InsertSorted(s[0], InsertionSort(s[1..], leq), leq);
      InsertPermutes(s[0], InsertionSort(s[1..], leq), leq);
      assert s == [s[0]] + s[1..];
    }
  }

  lemma EmptySorted<T>(leq: (T, T) -> bool)
    ensures Sorted([], leq)
  {
  }

  /** Sorters exist: insertion sort is one. */
  lemma SorterExists<T(!new)>()
    ensures IsSorter<T>(InsertionSort)
  {
    forall s: seq<T>, leq: (T, T) -> bool | TotalPreorder(leq)
      ensures Sorted(InsertionSort(s, leq), leq) && multiset(InsertionSort(s, leq)) == multiset(s)
    {
      InsertionSorts(s, leq);
    }
  }
}
