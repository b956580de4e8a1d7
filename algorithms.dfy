/** The standard algorithms the program runs on its vectors: std::sort,
    std::unique and std::remove_if work in place on an array (the vector's
    storage) and leave the result in a prefix whose length they return, which
    the program then keeps with `erase`; std::copy_if into a back_inserter
    appends to a growing sequence. Each is proved against a function of
    module Sequences or a predicate of module Orders. */
module Algorithms {
  import opened Orders
  import opened Sequences

  /** std::sort: reorders `a` so that it is sorted by `less` and holds the
      same elements as before. Written as an insertion sort; std::sort's own
      strategy is not observable. */
  method SortInPlace<T(!new)>(a: array<T>, less: (T, T) -> bool)
    requires StrictTotalOrder(less)
    modifies a
    ensures SortedBy(a[..], less)
    ensures multiset(a[..]) == multiset(old(a[..]))
  {
    var i := 0;
    while i < a.Length
      invariant 0 <= i <= a.Length
      invariant SortedBy(a[..i], less)
      invariant multiset(a[..]) == multiset(old(a[..]))
    {
      InsertLast(a, i, less);
      i := i + 1;
    }
  }

  /** One step of the insertion sort: a[..i] is sorted; afterwards a[..i+1]
      is, holding the same elements, and nothing else has moved. The new
      element travels down by swaps with its left neighbour while it is less
      than that neighbour. */
  method InsertLast<T(!new)>(a: array<T>, i: nat, less: (T, T) -> bool)
    requires StrictTotalOrder(less)
    requires i < a.Length
    requires SortedBy(a[..i], less)
    modifies a
    ensures SortedBy(a[..i + 1], less)
    ensures multiset(a[..]) == multiset(old(a[..]))
    ensures a[i + 1..] == old(a[i + 1..])
  {
    ghost var s := a[..];
    var j := i;
    MovedAt(s, i, i);
    assert Moved(s, i, i) == s;
    while j > 0 && less(a[j], a[j - 1])
      invariant 0 <= j <= i
      invariant a[..] == Moved(s, i, j)
      invariant a[j] == s[i] && (j > 0 ==> a[j - 1] == s[j - 1])
      invariant forall q :: j <= q < i ==> less(s[i], s[q])
    {
      Swap(a, j - 1, j);
      MovedSwap(s, i, j);
      j := j - 1;
      MovedAt(s, i, j);
    }
    MovedSorted(s, i, j, less);
    MovedPermutes(s, i, j);
  }

  /** The array of InsertLast once the element s[i] has travelled down to
      position j. */
  ghost function Moved<T>(s: seq<T>, i: nat, j: nat): (t: seq<T>)
    requires j <= i < |s|
    ensures |t| == |s|
    ensures t[i + 1..] == s[i + 1..]
  {
    s[..j] + [s[i]] + s[j..i] + s[i + 1..]
  }

  lemma MovedAt<T>(s: seq<T>, i: nat, j: nat)
    requires j <= i < |s|
    ensures forall k :: 0 <= k < j ==> Moved(s, i, j)[k] == s[k]
    ensures Moved(s, i, j)[j] == s[i]
    ensures forall k :: j < k <= i ==> Moved(s, i, j)[k] == s[k - 1]
  {
  }

  /** One swap moves the element one position further down. */
  lemma MovedSwap<T>(s: seq<T>, i: nat, j: nat)
    requires 0 < j <= i < |s|
    ensures Moved(s, i, j)[j - 1 := s[i]][j := s[j - 1]] == Moved(s, i, j - 1)
  {
    MovedAt(s, i, j);
    MovedAt(s, i, j - 1);
  }

  lemma MovedPermutes<T>(s: seq<T>, i: nat, j: nat)
    requires j <= i < |s|
    ensures multiset(Moved(s, i, j)) == multiset(s)
  {
    assert s == s[..j] + s[j..i] + [s[i]] + s[i + 1..];
  }

  /** The travelling element stopped at j: everything it passed is greater
      and its left neighbour is not, so the first i + 1 positions are
      sorted. */
  lemma MovedSorted<T(!new)>(s: seq<T>, i: nat, j: nat, less: (T, T) -> bool)
    requires StrictTotalOrder(less)
    requires j <= i < |s|
    requires SortedBy(s[..i], less)
    requires forall q :: j <= q < i ==> less(s[i], s[q])
    requires j == 0 || !less(s[i], s[j - 1])
    ensures SortedBy(Moved(s, i, j)[..i + 1], less)
  {
    var t := Moved(s, i, j);
    MovedAt(s, i, j);
    assert forall p, q :: 0 <= p < q < i ==> !less(s[q], s[p]) by {
      forall p, q | 0 <= p < q < i ensures !less(s[q], s[p]) {
        assert s[..i][p] == s[p] && s[..i][q] == s[q];
      }
    }
    forall p, q | 0 <= p < q <= i ensures !less(t[q], t[p]) {
      if p < j && q == j {
        AtMostTransitive(less, s[p], s[j - 1], s[i]);
      } else if p == j {
        Asymmetric(less, s[i], s[q - 1]);
      }
    }
    assert forall p, q :: 0 <= p < q < i + 1 ==> t[..i + 1][p] == t[p] && t[..i + 1][q] == t[q];
  }

  /** std::iter_swap of two positions. */
  method Swap<T>(a: array<T>, p: nat, q: nat)
    requires p < q < a.Length
    modifies a
    ensures a[..] == old(a[..])[p := old(a[q])][q := old(a[p])]
  {
    a[p], a[q] := a[q], a[p];
  }

  /** Writing position k of a sequence and keeping the first k + 1 elements. */
  lemma UpdatedPrefix<T>(s: seq<T>, k: nat, v: T)
    requires k < |s|
    ensures s[k := v][..k + 1] == s[..k] + [v]
  {
  }

  /** std::unique: collapses runs of equal neighbours, keeping the first of
      each, into the prefix a[..k]; what is left after position k is not
      specified. */
  method Unique<T(==,!new)>(a: array<T>) returns (k: nat)
    modifies a
    ensures k <= a.Length
    ensures a[..k] == Dedup(old(a[..]))
  {
    if a.Length == 0 {
      return 0;
    }
    ghost var s := a[..];
    k := 1;
    var i := 1;
    assert s[..1] == a[..1];
    while i < a.Length
      invariant 1 <= k <= i <= a.Length
      invariant a[..k] == Dedup(s[..i])
      invariant a[k - 1] == s[i - 1]
      invariant forall j :: i <= j < a.Length ==> a[j] == s[j]
    {
      var v := a[i];
      DedupPrefix(s, i);
      if v != a[k - 1] {
        ghost var before := a[..];
        a[k] := v;
        assert a[..] == before[k := v];
        UpdatedPrefix(before, k, v);
        k := k + 1;
      }
      i := i + 1;
    }
    assert s[..i] == s;
  }

  /** std::remove_if: moves the elements that do not satisfy `p` to the prefix
      a[..k], keeping their order; what is left after position k is not
      specified. */
  method RemoveIf<T(!new)>(a: array<T>, p: T -> bool) returns (k: nat)
    modifies a
    ensures k <= a.Length
    ensures a[..k] == Removed(old(a[..]), p)
  {
    ghost var s := a[..];
    k := 0;
    var i := 0;
    while i < a.Length
      invariant 0 <= k <= i <= a.Length
      invariant a[..k] == Removed(s[..i], p)
      invariant forall j :: i <= j < a.Length ==> a[j] == s[j]
    {
      var v := a[i];
      RemovedPrefix(s, i, p);
      if !p(v) {
        ghost var before := a[..];
        a[k] := v;
        assert a[..] == before[k := v];
        UpdatedPrefix(before, k, v);
        k := k + 1;
      }
      i := i + 1;
    }
    assert s[..i] == s;
  }

  /** std::copy_if into a back_inserter: appends, in order, the elements of
      `s` that satisfy `p` to an initially empty sequence. */
  method CopyIf<T(!new)>(s: seq<T>, p: T -> bool) returns (out: seq<T>)
    ensures out == Filter(s, p)
  {
    out := [];
    var i := 0;
    while i < |s|
      invariant 0 <= i <= |s|
      invariant out == Filter(s[..i], p)
    {
      FilterPrefix(s, i, p);
      if p(s[i]) {
        out := out + [s[i]];
      }
      i := i + 1;
    }
    assert s[..i] == s;
  }
}
