/** Strict total orders and what it means for a sequence to be sorted by one.
    The comparators handed to std::sort, std::upper_bound and
    std::set_intersection in the program (operator< on int, the reversed
    comparison of the descending sort, operator< on std::string) are all of
    this kind. */
module Orders {

  /** `less` is irreflexive, transitive and total on distinct values. */
  ghost predicate StrictTotalOrder<T(!new)>(less: (T, T) -> bool) {
    && (forall x :: !less(x, x))
    && (forall x, y, z :: less(x, y) && less(y, z) ==> less(x, z))
    && (forall x, y :: x != y ==> less(x, y) || less(y, x))
  }

  /** What std::sort guarantees: no element is less than one before it. */
  ghost predicate SortedBy<T(!new)>(s: seq<T>, less: (T, T) -> bool) {
    forall i, j :: 0 <= i < j < |s| ==> !less(s[j], s[i])
  }

  /** Every element is less than every later one (sorted and duplicate free). */
  ghost predicate StrictlyAscendingBy<T(!new)>(s: seq<T>, less: (T, T) -> bool) {
    forall i, j :: 0 <= i < j < |s| ==> less(s[i], s[j])
  }

  predicate IntLess(x: int, y: int) { x < y }

  /** The comparator of the descending sort, `[](int l, int r) { return r < l; }`. */
  predicate IntGreater(l: int, r: int) { r < l }

  lemma IntOrders()
    ensures StrictTotalOrder(IntLess) && StrictTotalOrder(IntGreater)
  {
  }

  lemma Asymmetric<T(!new)>(less: (T, T) -> bool, x: T, y: T)
    requires StrictTotalOrder(less)
    requires less(x, y)
    ensures !less(y, x) && x != y
  {
  }

  /** x <= y and y < z give x < z, where `<=` is "not greater". */
  lemma AtMostThenLess<T(!new)>(less: (T, T) -> bool, x: T, y: T, z: T)
    requires StrictTotalOrder(less)
    requires !less(y, x) && less(y, z)
    ensures less(x, z)
  {
  }

  /** The "not greater" relation is transitive. */
  lemma AtMostTransitive<T(!new)>(less: (T, T) -> bool, x: T, y: T, z: T)
    requires StrictTotalOrder(less)
    requires !less(y, x) && !less(z, y)
    ensures !less(z, x)
  {
  }

  lemma StrictlyAscendingIsSorted<T(!new)>(s: seq<T>, less: (T, T) -> bool)
    requires StrictTotalOrder(less)
    requires StrictlyAscendingBy(s, less)
    ensures SortedBy(s, less)
  {
    forall i, j | 0 <= i < j < |s| ensures !less(s[j], s[i]) {
      Asymmetric(less, s[i], s[j]);
    }
  }

  /** Two sequences sorted by the same strict total order and holding the same
      multiset of elements are equal: a sorted order is unique. */
  lemma {:induction false} SortedUnique<T(!new)>(x: seq<T>, y: seq<T>, less: (T, T) -> bool)
    requires StrictTotalOrder(less)
    requires SortedBy(x, less) && SortedBy(y, less)
    requires multiset(x) == multiset(y)
    ensures x == y
  {
    assert |x| == |multiset(x)| == |multiset(y)| == |y|;
    if x != [] {
      SortedHeads(x, y, less);
      SortedTail(x, less);
      SortedTail(y, less);
      TailMultiset(x);
      TailMultiset(y);
      SortedUnique(x[1..], y[1..], less);
      SameHeadAndTail(x, y);
    }
  }

  /** An element not greater than any element of a sorted sequence can go in
      front of it. */
  lemma ConsSorted<T(!new)>(x: T, s: seq<T>, less: (T, T) -> bool)
    requires SortedBy(s, less)
    requires forall i :: 0 <= i < |s| ==> !less(s[i], x)
    ensures SortedBy([x] + s, less)
  {
    forall i, j | 0 <= i < j < |s| + 1 ensures !less(([x] + s)[j], ([x] + s)[i]) {
      assert ([x] + s)[j] == s[j - 1];
      if i > 0 {
        assert ([x] + s)[i] == s[i - 1];
      }
    }
  }

  /** An element less than every element of a strictly ascending sequence
      can go in front of it. */
  lemma ConsAscending<T(!new)>(x: T, s: seq<T>, less: (T, T) -> bool)
    requires StrictlyAscendingBy(s, less)
    requires forall i :: 0 <= i < |s| ==> less(x, s[i])
    ensures StrictlyAscendingBy([x] + s, less)
  {
    forall i, j | 0 <= i < j < |s| + 1 ensures less(([x] + s)[i], ([x] + s)[j]) {
      assert ([x] + s)[j] == s[j - 1];
      if i > 0 {
        assert ([x] + s)[i] == s[i - 1];
      }
    }
  }

  lemma HeadThenTail<T>(x: seq<T>)
    requires x != []
    ensures x == [x[0]] + x[1..]
  {
  }

  lemma SameHeadAndTail<T>(x: seq<T>, y: seq<T>)
    requires x != [] && y != []
    requires x[0] == y[0] && x[1..] == y[1..]
    ensures x == y
  {
    assert x == [x[0]] + x[1..];
    assert y == [y[0]] + y[1..];
  }

  /** Sorted sequences with the same elements start with the same element. */
  lemma SortedHeads<T(!new)>(x: seq<T>, y: seq<T>, less: (T, T) -> bool)
    requires StrictTotalOrder(less)
    requires SortedBy(x, less) && SortedBy(y, less)
    requires x != [] && y != []
    requires multiset(x) == multiset(y)
    ensures x[0] == y[0]
  {
    assert x[0] in multiset(y);
    assert y[0] in multiset(x);
    var i :| 0 <= i < |y| && y[i] == x[0];
    var j :| 0 <= j < |x| && x[j] == y[0];
    assert !less(x[0], y[0]) && !less(y[0], x[0]);
  }

  lemma SortedTail<T(!new)>(x: seq<T>, less: (T, T) -> bool)
    requires SortedBy(x, less) && x != []
    ensures SortedBy(x[1..], less)
  {
    forall i, j | 0 <= i < j < |x| - 1 ensures !less(x[1..][j], x[1..][i]) {
      assert x[1..][j] == x[j + 1] && x[1..][i] == x[i + 1];
    }
  }

  lemma TailMultiset<T>(x: seq<T>)
    requires x != []
    ensures multiset(x[1..]) == multiset(x) - multiset{x[0]}
  {
    assert x == [x[0]] + x[1..];
  }

  /** A strictly ascending sequence is determined by its set of elements. */
  lemma {:induction false} AscendingUnique<T(!new)>(x: seq<T>, y: seq<T>, less: (T, T) -> bool)
    requires StrictTotalOrder(less)
    requires StrictlyAscendingBy(x, less) && StrictlyAscendingBy(y, less)
    requires forall e :: e in x <==> e in y
    ensures x == y
  {
    assert |y| > 0 ==> y[0] in x;
    if x != [] {
      assert x[0] in y;
      assert y[0] in x;
      StrictlyAscendingIsSorted(x, less);
      StrictlyAscendingIsSorted(y, less);
      var i :| 0 <= i < |y| && y[i] == x[0];
      var j :| 0 <= j < |x| && x[j] == y[0];
      assert !less(x[0], y[0]) && !less(y[0], x[0]);
      assert x[0] == y[0];
      forall e ensures e in x[1..] <==> e in y[1..] {
        if e in x[1..] {
          var k :| 1 <= k < |x| && x[k] == e;
          Asymmetric(less, x[0], x[k]);
          assert e in y;
        }
        if e in y[1..] {
          var k :| 1 <= k < |y| && y[k] == e;
          Asymmetric(less, y[0], y[k]);
          assert e in x;
        }
      }
      AscendingUnique(x[1..], y[1..], less);
    }
  }
}
