/** Collections.sort on a list of events, with the comparator as a relation. */
module Sorting {
  import opened Sequences

  /** What Comparable asks of compareTo: any two elements compare, and the order is transitive. */
  ghost predicate TotalPreorder<T(!new)>(leq: (T, T) -> bool) {
    && (forall x, y :: leq(x, y) || leq(y, x))
    && (forall x, y, z :: leq(x, y) && leq(y, z) ==> leq(x, z))
  }

  /** Every element is at most every later one. */
  ghost predicate SortedBy<T>(leq: (T, T) -> bool, s: seq<T>) {
    forall i, j :: 0 <= i < j < |s| ==> leq(s[i], s[j])
  }

  /** The elements that compare equal to v (compareTo returns 0). */
  function TiedWith<T>(leq: (T, T) -> bool, v: T): T -> bool {
    e => leq(e, v) && leq(v, e)
  }

  /** Puts x into s just after the last element that is not strictly greater than x. */
  function Insert<T>(leq: (T, T) -> bool, s: seq<T>, x: T): seq<T> {
    if s == [] || leq(s[|s| - 1], x) then s + [x]
    else Insert(leq, s[..|s| - 1], x) + [s[|s| - 1]]
  }

  /** Stable insertion sort: the reference for what a stable sort returns. */
  function InsertionSort<T>(leq: (T, T) -> bool, s: seq<T>): seq<T> {
    if s == [] then [] else Insert(leq, InsertionSort(leq, s[..|s| - 1]), s[|s| - 1])
  }

  lemma {:induction false} InsertMultiset<T>(leq: (T, T) -> bool, s: seq<T>, x: T)
    ensures multiset(Insert(leq, s, x)) == multiset(s) + multiset{x}
  {
    if s != [] && !leq(s[|s| - 1], x) {
      InsertMultiset(leq, s[..|s| - 1], x);
      assert s == s[..|s| - 1] + [s[|s| - 1]];
    }
  }

  lemma {:induction false} InsertSorted<T(!new)>(leq: (T, T) -> bool, s: seq<T>, x: T)
    requires TotalPreorder(leq) && SortedBy(leq, s)
    ensures SortedBy(leq, Insert(leq, s, x))
  {
    if s != [] && !leq(s[|s| - 1], x) {
      var init, last := s[..|s| - 1], s[|s| - 1];
      InsertSorted(leq, init, x);
      InsertMultiset(leq, init, x);
      var r := Insert(leq, init, x);
      forall k | 0 <= k < |r| ensures leq(r[k], last) {
        assert r[k] in multiset(init) + multiset{x};
        if r[k] != x {
          var p :| 0 <= p < |init| && init[p] == r[k];
          assert s[p] == r[k];
        }
      }
    }
  }

  /** Inserting x does not move it past any element tied (for v) with it. */
  lemma {:induction false} InsertStable<T(!new)>(leq: (T, T) -> bool, s: seq<T>, x: T, v: T)
    requires TotalPreorder(leq)
    ensures Filter(Insert(leq, s, x), TiedWith(leq, v))
         == Filter(s, TiedWith(leq, v)) + Filter([x], TiedWith(leq, v))
  {
    var t := TiedWith(leq, v);
    if s == [] || leq(s[|s| - 1], x) {
      FilterAppend(s, x, t);
      FilterAppend([], x, t);
    } else {
      var init, last := s[..|s| - 1], s[|s| - 1];
      InsertStable(leq, init, x, v);
      FilterAppend(Insert(leq, init, x), last, t);
      FilterAppend(init, last, t);
      assert s == init + [last];
      FilterAppend([], x, t);
      assert !(t(x) && t(last));
    }
  }

  /** The insertion sort is sorted. */
  lemma {:induction false} InsertionSortSorted<T(!new)>(leq: (T, T) -> bool, s: seq<T>)
    requires TotalPreorder(leq)
    ensures SortedBy(leq, InsertionSort(leq, s))
  {
    if s != [] {
      InsertionSortSorted(leq, s[..|s| - 1]);
      InsertSorted(leq, InsertionSort(leq, s[..|s| - 1]), s[|s| - 1]);
    }
  }

  /** The insertion sort is a permutation of its input. */
  lemma {:induction false} InsertionSortPermutation<T>(leq: (T, T) -> bool, s: seq<T>)
    ensures multiset(InsertionSort(leq, s)) == multiset(s)
  {
    if s != [] {
      InsertionSortPermutation(leq, s[..|s| - 1]);
      InsertMultiset(leq, InsertionSort(leq, s[..|s| - 1]), s[|s| - 1]);
      assert s == s[..|s| - 1] + [s[|s| - 1]];
    }
  }

  /** The insertion sort is stable: the elements tied with any v keep their input order. */
  lemma {:induction false} InsertionSortStable<T(!new)>(leq: (T, T) -> bool, s: seq<T>, v: T)
    requires TotalPreorder(leq)
    ensures Filter(InsertionSort(leq, s), TiedWith(leq, v)) == Filter(s, TiedWith(leq, v))
  {
    if s != [] {
      var init, last := s[..|s| - 1], s[|s| - 1];
      InsertionSortStable(leq, init, v);
      InsertStable(leq, InsertionSort(leq, init), last, v);
      FilterAppend(init, last, TiedWith(leq, v));
      FilterAppend([], last, TiedWith(leq, v));
      assert s == init + [last];
    }
  }

  /** When x moves left exactly past the elements from j on, Insert puts it at j. */
  lemma {:induction false} InsertAt<T>(leq: (T, T) -> bool, s: seq<T>, x: T, j: nat)
    requires j <= |s|
    requires forall k :: j <= k < |s| ==> !leq(s[k], x)
    requires j == 0 || leq(s[j - 1], x)
    ensures Insert(leq, s, x) == s[..j] + [x] + s[j..]
  {
    if j < |s| {
      var init := s[..|s| - 1];
      InsertAt(leq, init, x, j);
      assert init[..j] == s[..j] && init[j..] + [s[|s| - 1]] == s[j..];
    } else {
      assert s[..j] == s;
    }
  }

  /** One step of the insertion sort: moves a[i] left past the strictly greater elements before it. */
  method InsertInPlace<T>(a: array<T>, i: nat, leq: (T, T) -> bool)
    requires i < a.Length
    modifies a
    ensures a[..i + 1] == Insert(leq, old(a[..i]), old(a[i]))
    ensures a[i + 1..] == old(a[i + 1..])
  {
    ghost var sorted := a[..i];
    ghost var rest := a[i + 1..];
    var x := a[i];
    var j := i;
    while j > 0 && !leq(a[j - 1], x)
      invariant 0 <= j <= i
      invariant a[..j] == sorted[..j]
      invariant a[j] == x
      invariant a[j + 1..i + 1] == sorted[j..]
      invariant a[i + 1..] == rest
      invariant forall k :: j <= k < i ==> !leq(sorted[k], x)
    {
      a[j - 1], a[j] := a[j], a[j - 1];
      j := j - 1;
    }
    assert j > 0 ==> a[j - 1] == a[..j][j - 1] == sorted[j - 1];
    InsertAt(leq, sorted, x, j);
    assert a[..i + 1] == a[..j] + [a[j]] + a[j + 1..i + 1];
  }

  /**
   * Sorts `a` in place by insertion: each new element moves left past the
   * elements strictly greater than it. The result is the stable insertion
   * sort of the old contents.
   */
  method SortInPlace<T(!new)>(a: array<T>, leq: (T, T) -> bool)
    requires TotalPreorder(leq)
    modifies a
    ensures a[..] == InsertionSort(leq, old(a[..]))
    ensures SortedBy(leq, a[..])
    ensures multiset(a[..]) == old(multiset(a[..]))
    ensures forall v :: Filter(a[..], TiedWith(leq, v)) == Filter(old(a[..]), TiedWith(leq, v))
  {
    ghost var input := a[..];
    var i := 0;
    while i < a.Length
      invariant 0 <= i <= a.Length
      invariant a[..i] == InsertionSort(leq, input[..i])
      invariant a[i..] == input[i..]
    {
      InsertInPlace(a, i, leq);
      assert input[..i + 1][..i] == input[..i];
      i := i + 1;
    }
    assert input[..a.Length] == input && a[..a.Length] == a[..];
    InsertionSortSorted(leq, input);
    InsertionSortPermutation(leq, input);
    forall v ensures Filter(a[..], TiedWith(leq, v)) == Filter(input, TiedWith(leq, v)) {
      InsertionSortStable(leq, input, v);
    }
  }

  /** Collections.sort on a list: copies it into an array, sorts that in place, and reads it back. */
  method Sort<T(!new)>(list: seq<T>, leq: (T, T) -> bool) returns (r: seq<T>)
    requires TotalPreorder(leq)
    ensures r == InsertionSort(leq, list)
    ensures SortedBy(leq, r)
    ensures multiset(r) == multiset(list)
    ensures forall v :: Filter(r, TiedWith(leq, v)) == Filter(list, TiedWith(leq, v))
  {
    var a := new T[|list|](k requires 0 <= k < |list| => list[k]);
    assert a[..] == list;
    SortInPlace(a, leq);
    r := a[..];
  }
}
