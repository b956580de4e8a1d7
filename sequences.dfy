/** Specification functions over sequences: the values that std::copy_if,
    std::remove_if, std::count_if, std::count and std::unique compute, plus
    joining with and splitting at a separator. The in-place algorithms of
    module Algorithms are proved against these. */
module Sequences {
  import opened Orders

  /** The elements of `s` that satisfy `p`, in their original order. */
  function Filter<T(!new)>(s: seq<T>, p: T -> bool): (r: seq<T>)
    ensures |r| <= |s|
    ensures forall i :: 0 <= i < |r| ==> p(r[i])
  {
    if s == [] then []
    else (if p(s[0]) then [s[0]] else []) + Filter(s[1..], p)
  }

  /** The elements of `s` that do not satisfy `p`, in their original order. */
  function Removed<T(!new)>(s: seq<T>, p: T -> bool): (r: seq<T>)
    ensures |r| <= |s|
    ensures forall i :: 0 <= i < |r| ==> !p(r[i])
  {
    if s == [] then []
    else (if p(s[0]) then [] else [s[0]]) + Removed(s[1..], p)
  }

  /** The kept elements are exactly the members of `s` that satisfy `p`. */
  lemma {:induction false} FilterMembers<T(!new)>(s: seq<T>, p: T -> bool)
    ensures forall x :: x in Filter(s, p) <==> x in s && p(x)
  {
    if s != [] {
      FilterMembers(s[1..], p);
      assert s == [s[0]] + s[1..];
    }
  }

  /** The kept elements are exactly the members of `s` that fail `p`. */
  lemma {:induction false} RemovedMembers<T(!new)>(s: seq<T>, p: T -> bool)
    ensures forall x :: x in Removed(s, p) <==> x in s && !p(x)
  {
    if s != [] {
      RemovedMembers(s[1..], p);
      assert s == [s[0]] + s[1..];
    }
  }

  /** The number of elements of `s` that satisfy `p`. */
  function CountIf<T(!new)>(s: seq<T>, p: T -> bool): (n: nat)
    ensures n <= |s|
  {
    if s == [] then 0
    else (if p(s[0]) then 1 else 0) + CountIf(s[1..], p)
  }

  /** The number of elements of `s` equal to `v`. */
  function CountOf<T(==,!new)>(s: seq<T>, v: T): (n: nat)
    ensures n <= |s|
    ensures n == multiset(s)[v]
  {
    if s == [] then 0
    else
      assert s == [s[0]] + s[1..];
      (if s[0] == v then 1 else 0) + CountOf(s[1..], v)
  }

  /** `x` can be obtained from `y` by deleting elements. */
  ghost predicate IsSubsequence<T(!new)>(x: seq<T>, y: seq<T>)
    decreases |y|
  {
    x == [] ||
    (y != [] &&
     if x[0] == y[0] then IsSubsequence(x[1..], y[1..]) else IsSubsequence(x, y[1..]))
  }

  /** `s` with every run of equal adjacent elements collapsed to one element. */
  function Dedup<T(==,!new)>(s: seq<T>): (r: seq<T>)
    ensures |r| <= |s|
    ensures |s| > 0 ==> |r| > 0 && r[|r| - 1] == s[|s| - 1]
    ensures forall i :: 0 <= i < |r| - 1 ==> r[i] != r[i + 1]
  {
    if |s| <= 1 then s
    else if s[|s| - 1] == s[|s| - 2] then
      assert s[..|s| - 1][|s| - 2] == s[|s| - 1];
      Dedup(s[..|s| - 1])
    else
      Dedup(s[..|s| - 1]) + [s[|s| - 1]]
  }

  /** unique drops only repeats: its result has exactly the members of `s`. */
  lemma {:induction false} DedupMembers<T(!new)>(s: seq<T>)
    ensures forall x :: x in Dedup(s) <==> x in s
  {
    if |s| > 1 {
      var init := s[..|s| - 1];
      DedupMembers(init);
      assert s == init + [s[|s| - 1]];
      assert s[|s| - 1] == s[|s| - 2] ==> s[|s| - 1] in init;
    }
  }

  /** Extending the input by one element extends the result by it unless it
      repeats the last element. */
  lemma DedupPrefix<T(!new)>(s: seq<T>, i: nat)
    requires 0 < i < |s|
    ensures Dedup(s[..i + 1]) == if s[i] == s[i - 1] then Dedup(s[..i]) else Dedup(s[..i]) + [s[i]]
  {
    var t := s[..i + 1];
    assert t[..|t| - 1] == s[..i];
  }

  /** The pieces `ws` written one after another with `sep` between neighbours. */
  function Join(ws: seq<string>, sep: string): string {
    if ws == [] then ""
    else if |ws| == 1 then ws[0]
    else ws[0] + sep + Join(ws[1..], sep)
  }

  /** The pieces of `s` between occurrences of `sep`; always at least one. */
  function Split(s: string, sep: char): (pieces: seq<string>)
    ensures |pieces| >= 1
  {
    if s == [] then [""]
    else
      var rest := Split(s[1..], sep);
      if s[0] == sep then [""] + rest
      else [[s[0]] + rest[0]] + rest[1..]
  }

  /* ---------------- copy_if / remove_if / count_if ---------------- */

  lemma ConcatAssociative<T>(a: seq<T>, b: seq<T>, c: seq<T>)
    ensures a + (b + c) == (a + b) + c
  {
  }

  /** Filter unfolded once, at a sequence written as head and tail. */
  lemma FilterCons<T(!new)>(x: T, s: seq<T>, p: T -> bool)
    ensures Filter([x] + s, p) == (if p(x) then [x] else []) + Filter(s, p)
  {
    assert ([x] + s)[1..] == s;
  }

  /** Removed unfolded once, at a sequence written as head and tail. */
  lemma RemovedCons<T(!new)>(x: T, s: seq<T>, p: T -> bool)
    ensures Removed([x] + s, p) == (if p(x) then [] else [x]) + Removed(s, p)
  {
    assert ([x] + s)[1..] == s;
  }

  /** When every element satisfies `p`, Filter keeps the whole sequence. */
  lemma {:induction false} FilterKeepsAll<T(!new)>(s: seq<T>, p: T -> bool)
    requires forall i :: 0 <= i < |s| ==> p(s[i])
    ensures Filter(s, p) == s
  {
    if s != [] {
      FilterKeepsAll(s[1..], p);
      assert s == [s[0]] + s[1..];
    }
  }

  lemma {:induction false} FilterConcat<T(!new)>(a: seq<T>, b: seq<T>, p: T -> bool)
    ensures Filter(a + b, p) == Filter(a, p) + Filter(b, p)
  {
    if a == [] {
      assert a + b == b;
    } else {
      var h := if p(a[0]) then [a[0]] else [];
      calc {
        Filter(a + b, p);
        == { FilterCons(a[0], a[1..] + b, p); assert a + b == [a[0]] + (a[1..] + b); }
        h + Filter(a[1..] + b, p);
        == { FilterConcat(a[1..], b, p); }
        h + (Filter(a[1..], p) + Filter(b, p));
        == { ConcatAssociative(h, Filter(a[1..], p), Filter(b, p)); }
        (h + Filter(a[1..], p)) + Filter(b, p);
        == { FilterCons(a[0], a[1..], p); assert a == [a[0]] + a[1..]; }
        Filter(a, p) + Filter(b, p);
      }
    }
  }

  /** Extending the input by one element extends the kept elements by it
      when it satisfies the predicate. */
  lemma FilterPrefix<T(!new)>(s: seq<T>, i: nat, p: T -> bool)
    requires i < |s|
    ensures Filter(s[..i + 1], p) == Filter(s[..i], p) + (if p(s[i]) then [s[i]] else [])
  {
    assert s[..i + 1] == s[..i] + [s[i]];
    FilterConcat(s[..i], [s[i]], p);
  }

  lemma RemovedPrefix<T(!new)>(s: seq<T>, i: nat, p: T -> bool)
    requires i < |s|
    ensures Removed(s[..i + 1], p) == Removed(s[..i], p) + (if p(s[i]) then [] else [s[i]])
  {
    assert s[..i + 1] == s[..i] + [s[i]];
    RemovedConcat(s[..i], [s[i]], p);
  }

  lemma {:induction false} RemovedConcat<T(!new)>(a: seq<T>, b: seq<T>, p: T -> bool)
    ensures Removed(a + b, p) == Removed(a, p) + Removed(b, p)
  {
    if a == [] {
      assert a + b == b;
    } else {
      var h := if p(a[0]) then [] else [a[0]];
      calc {
        Removed(a + b, p);
        == { RemovedCons(a[0], a[1..] + b, p); assert a + b == [a[0]] + (a[1..] + b); }
        h + Removed(a[1..] + b, p);
        == { RemovedConcat(a[1..], b, p); }
        h + (Removed(a[1..], p) + Removed(b, p));
        == { ConcatAssociative(h, Removed(a[1..], p), Removed(b, p)); }
        (h + Removed(a[1..], p)) + Removed(b, p);
        == { RemovedCons(a[0], a[1..], p); assert a == [a[0]] + a[1..]; }
        Removed(a, p) + Removed(b, p);
      }
    }
  }

  lemma {:induction false} CountIfConcat<T(!new)>(a: seq<T>, b: seq<T>, p: T -> bool)
    ensures CountIf(a + b, p) == CountIf(a, p) + CountIf(b, p)
  {
    if a == [] {
      assert a + b == b;
    } else {
      assert (a + b)[1..] == a[1..] + b;
      CountIfConcat(a[1..], b, p);
    }
  }

  /** count_if does not depend on the order of the elements. */
  lemma {:induction false} CountIfPermutation<T(!new)>(a: seq<T>, b: seq<T>, p: T -> bool)
    requires multiset(a) == multiset(b)
    ensures CountIf(a, p) == CountIf(b, p)
    decreases |a|
  {
    if a == [] {
      assert |b| == |multiset(b)| == 0;
    } else {
      assert a[0] in multiset(b);
      var i :| 0 <= i < |b| && b[i] == a[0];
      CountIfRemoveAt(b, i, p);
      MultisetRemoveAt(b, i);
      TailMultiset(a);
      CountIfPermutation(a[1..], b[..i] + b[i + 1..], p);
    }
  }

  /** Taking the element at position i out of `b`. */
  lemma MultisetRemoveAt<T>(b: seq<T>, i: nat)
    requires i < |b|
    ensures multiset(b[..i] + b[i + 1..]) == multiset(b) - multiset{b[i]}
  {
    assert b == b[..i] + [b[i]] + b[i + 1..];
  }

  lemma SplitAt<T>(b: seq<T>, i: nat)
    requires i < |b|
    ensures b == b[..i] + ([b[i]] + b[i + 1..])
  {
  }

  lemma CountIfRemoveAt<T(!new)>(b: seq<T>, i: nat, p: T -> bool)
    requires i < |b|
    ensures CountIf(b, p) == (if p(b[i]) then 1 else 0) + CountIf(b[..i] + b[i + 1..], p)
  {
    var x, l, r := b[i], b[..i], b[i + 1..];
    calc {
      CountIf(b, p);
      == { SplitAt(b, i); }
      CountIf(l + ([x] + r), p);
      == { CountIfConcat(l, [x] + r, p); }
      CountIf(l, p) + CountIf([x] + r, p);
      == { assert ([x] + r)[1..] == r; }
      CountIf(l, p) + (if p(x) then 1 else 0) + CountIf(r, p);
      == { CountIfConcat(l, r, p); }
      (if p(x) then 1 else 0) + CountIf(l + r, p);
    }
  }

  /** copy_if and count_if agree: the copy has as many elements as are counted. */
  lemma {:induction false} FilterLength<T(!new)>(s: seq<T>, p: T -> bool)
    ensures |Filter(s, p)| == CountIf(s, p)
  {
    if s != [] {
      FilterLength(s[1..], p);
    }
  }

  /** Filtering twice by the same predicate changes nothing more. */
  lemma {:induction false} FilterIdempotent<T(!new)>(s: seq<T>, p: T -> bool)
    ensures Filter(Filter(s, p), p) == Filter(s, p)
  {
    if s != [] {
      FilterIdempotent(s[1..], p);
      var head := if p(s[0]) then [s[0]] else [];
      assert Filter(s, p) == head + Filter(s[1..], p);
      FilterConcat(head, Filter(s[1..], p), p);
      assert head == [] || Filter(head, p) == head + Filter([], p);
    }
  }

  /** What copy_if keeps and what remove_if keeps split `s` between them. */
  lemma {:induction false} FilterRemovedPartition<T(!new)>(s: seq<T>, p: T -> bool)
    ensures |Filter(s, p)| + |Removed(s, p)| == |s|
    ensures multiset(Filter(s, p)) + multiset(Removed(s, p)) == multiset(s)
  {
    if s != [] {
      FilterRemovedPartition(s[1..], p);
      assert s == [s[0]] + s[1..];
    }
  }

  lemma {:induction false} FilterIsSubsequence<T(!new)>(s: seq<T>, p: T -> bool)
    ensures IsSubsequence(Filter(s, p), s)
  {
    if s != [] {
      FilterIsSubsequence(s[1..], p);
      var r := Filter(s, p);
      if p(s[0]) {
        assert r[0] == s[0] && r[1..] == Filter(s[1..], p);
      } else {
        assert r == Filter(s[1..], p);
        assert r != [] ==> r[0] != s[0];
      }
    }
  }

  lemma {:induction false} RemovedIsSubsequence<T(!new)>(s: seq<T>, p: T -> bool)
    ensures IsSubsequence(Removed(s, p), s)
  {
    if s != [] {
      RemovedIsSubsequence(s[1..], p);
      var r := Removed(s, p);
      if !p(s[0]) {
        assert r[0] == s[0] && r[1..] == Removed(s[1..], p);
      } else {
        assert r == Removed(s[1..], p);
        assert r != [] ==> r[0] != s[0];
      }
    }
  }

  /** A subsequence of `s` made only of elements satisfying `p` has at most
      as many elements as `s` has such elements. */
  lemma {:induction false} SubsequenceCount<T(!new)>(r: seq<T>, s: seq<T>, p: T -> bool)
    requires IsSubsequence(r, s)
    requires forall i :: 0 <= i < |r| ==> p(r[i])
    ensures |r| <= CountIf(s, p)
    decreases |s|
  {
    if r != [] {
      if r[0] == s[0] {
        SubsequenceCount(r[1..], s[1..], p);
      } else {
        SubsequenceCount(r, s[1..], p);
      }
    }
  }

  /** Filter(s, p) is THE longest subsequence of `s` whose elements satisfy
      `p`: any subsequence of that kind with as many elements as `s` has
      elements satisfying `p` is Filter(s, p) itself. */
  lemma {:induction false} FilterCharacterised<T(!new)>(r: seq<T>, s: seq<T>, p: T -> bool)
    requires IsSubsequence(r, s)
    requires forall i :: 0 <= i < |r| ==> p(r[i])
    requires |r| == CountIf(s, p)
    ensures r == Filter(s, p)
    decreases |s|
  {
    if s == [] {
    } else if r == [] {
      FilterLength(s, p);
    } else if r[0] == s[0] {
      FilterCharacterised(r[1..], s[1..], p);
      assert r == [r[0]] + r[1..];
    } else {
      SubsequenceCount(r, s[1..], p);
      FilterCharacterised(r, s[1..], p);
    }
  }

  /* ---------------- unique ---------------- */

  /** The number of maximal runs of equal neighbours in `s`, counted from
      the front: one for the first element, and one more wherever an element
      differs from its predecessor. */
  function Runs<T(==)>(s: seq<T>): (n: nat)
    ensures n <= |s|
    ensures s != [] ==> n >= 1
  {
    if |s| <= 1 then |s|
    else (if s[0] != s[1] then 1 else 0) + Runs(s[1..])
  }

  /** A subsequence of `t` is also one of `t` with an element put in front. */
  lemma {:induction false} SubsequenceCons<T(!new)>(r: seq<T>, x: T, t: seq<T>)
    requires IsSubsequence(r, t)
    ensures IsSubsequence(r, [x] + t)
    decreases |t|, 1
  {
    assert ([x] + t)[1..] == t;
    if r != [] && r[0] == x {
      SubsequenceDropHead(r, t);
    }
  }

  /** Dropping the first element of a subsequence leaves a subsequence. */
  lemma {:induction false} SubsequenceDropHead<T(!new)>(r: seq<T>, t: seq<T>)
    requires r != [] && IsSubsequence(r, t)
    ensures IsSubsequence(r[1..], t)
    decreases |t|, 0
  {
    if r[0] != t[0] {
      SubsequenceDropHead(r, t[1..]);
    }
    HeadThenTail(t);
    SubsequenceCons(r[1..], t[0], t[1..]);
  }

  /** The first elements of a sequence with an element put in front. */
  lemma DropLastCons<T>(x: T, t: seq<T>)
    requires t != []
    ensures ([x] + t)[..|t|] == [x] + t[..|t| - 1]
  {
  }

  /** Dedup unfolded once, at the last element. */
  lemma DedupLast<T(!new)>(s: seq<T>)
    requires |s| > 1
    ensures Dedup(s) == Dedup(s[..|s| - 1]) + (if s[|s| - 1] == s[|s| - 2] then [] else [s[|s| - 1]])
  {
  }

  /** unique seen from the front: the first element is kept and followed by
      the result on the rest, unless it belongs to the rest's first run. */
  lemma {:induction false} DedupCons<T(!new)>(x: T, t: seq<T>)
    ensures Dedup([x] + t) == if t != [] && x == t[0] then Dedup(t) else [x] + Dedup(t)
    decreases |t|
  {
    if t == [] {
      assert [x] + t == [x];
    } else if |t| == 1 {
      DedupLast([x] + t);
      DropLastCons(x, t);
    } else {
      DedupCons(x, t[..|t| - 1]);
      DedupConsStep(x, t);
    }
  }

  /** The inductive step of DedupCons: from the claim for t without its last
      element to the claim for t. */
  lemma DedupConsStep<T(!new)>(x: T, t: seq<T>)
    requires |t| > 1
    requires Dedup([x] + t[..|t| - 1]) ==
      if x == t[0] then Dedup(t[..|t| - 1]) else [x] + Dedup(t[..|t| - 1])
    ensures Dedup([x] + t) == if x == t[0] then Dedup(t) else [x] + Dedup(t)
  {
    var init := t[..|t| - 1];
    var last: seq<T> := if t[|t| - 1] == t[|t| - 2] then [] else [t[|t| - 1]];
    DedupLast([x] + t);
    DropLastCons(x, t);
    DedupLast(t);
    if x != t[0] {
      ConcatAssociative([x], Dedup(init), last);
    }
  }

  /** unique keeps one element per run of equal neighbours. */
  lemma {:induction false} DedupLength<T(!new)>(s: seq<T>)
    ensures |Dedup(s)| == Runs(s)
  {
    if |s| > 1 {
      HeadThenTail(s);
      DedupCons(s[0], s[1..]);
      DedupLength(s[1..]);
    }
  }

  /** unique keeps the relative order of the elements it keeps. */
  lemma {:induction false} DedupIsSubsequence<T(!new)>(s: seq<T>)
    ensures IsSubsequence(Dedup(s), s)
  {
    if s != [] {
      var t := s[1..];
      HeadThenTail(s);
      DedupCons(s[0], t);
      DedupIsSubsequence(t);
      if t != [] && s[0] == t[0] {
        SubsequenceCons(Dedup(t), s[0], t);
      } else {
        assert ([s[0]] + Dedup(t))[1..] == Dedup(t);
      }
    }
  }

  /** A subsequence without equal neighbours takes at most one element from
      each run. */
  lemma {:induction false} SubsequenceRuns<T(!new)>(r: seq<T>, s: seq<T>)
    requires IsSubsequence(r, s)
    requires forall i :: 0 <= i < |r| - 1 ==> r[i] != r[i + 1]
    ensures |r| <= Runs(s)
    decreases |s|
  {
    if r != [] {
      var t := s[1..];
      if r[0] != s[0] {
        SubsequenceRuns(r, t);
      } else if t == [] {
        assert r[1..] == [];
      } else if s[0] != t[0] {
        SubsequenceRuns(r[1..], t);
      } else if |r| > 1 {
        assert IsSubsequence(r[1..], t[1..]);
        SubsequenceRuns(r, t);
      }
    }
  }

  /** Dedup(s) is THE subsequence of `s` without equal neighbours that has
      one element per run: any subsequence of that kind is Dedup(s). */
  lemma {:induction false} DedupCharacterised<T(!new)>(r: seq<T>, s: seq<T>)
    requires IsSubsequence(r, s)
    requires forall i :: 0 <= i < |r| - 1 ==> r[i] != r[i + 1]
    requires |r| == Runs(s)
    ensures r == Dedup(s)
    decreases |s|
  {
    if s != [] {
      var t := s[1..];
      HeadThenTail(s);
      HeadThenTail(r);
      DedupCons(s[0], t);
      if t == [] {
        assert r[1..] == [];
      } else if s[0] == t[0] {
        if r[0] == s[0] && |r| > 1 {
          assert IsSubsequence(r[1..], t[1..]);
        } else if r[0] == s[0] {
          assert r[1..] == [];
        }
        assert IsSubsequence(r, t);
        DedupCharacterised(r, t);
      } else {
        assert r[0] == s[0] by {
          if r[0] != s[0] {
            SubsequenceRuns(r, t);
          }
        }
        DedupCharacterised(r[1..], t);
      }
    }
  }

  /** Collapsing runs keeps a sorted sequence sorted and makes it strictly
      ascending: no two elements of the result are equal. */
  lemma {:induction false} DedupOfSorted<T(!new)>(s: seq<T>, less: (T, T) -> bool)
    requires StrictTotalOrder(less)
    requires SortedBy(s, less)
    ensures StrictlyAscendingBy(Dedup(s), less)
  {
    if |s| > 1 {
      var init := s[..|s| - 1];
      var last := s[|s| - 1];
      assert SortedBy(init, less);
      DedupOfSorted(init, less);
      if last != s[|s| - 2] {
        var d := Dedup(init);
        assert Dedup(s) == d + [last];
        assert less(s[|s| - 2], last);
        DedupMembers(init);
        forall i | 0 <= i < |d| ensures less(d[i], last) {
          assert d[i] in init;
          var k :| 0 <= k < |init| && init[k] == d[i];
          AtMostThenLess(less, d[i], s[|s| - 2], last);
        }
      }
    }
  }

  /* ---------------- join / split / count ---------------- */

  /** Appending a piece to a non-empty list appends the separator and the piece. */
  lemma {:induction false} JoinSnoc(ws: seq<string>, w: string, sep: string)
    requires ws != []
    ensures Join(ws + [w], sep) == Join(ws, sep) + sep + w
  {
    if |ws| > 1 {
      assert (ws + [w])[1..] == ws[1..] + [w];
      JoinSnoc(ws[1..], w, sep);
    }
  }

  lemma {:induction false} SplitPiece(w: string, sep: char)
    requires sep !in w
    ensures Split(w, sep) == [w]
  {
    if w != [] {
      SplitPiece(w[1..], sep);
      assert w == [w[0]] + w[1..];
    }
  }

  lemma {:induction false} SplitPieceThenRest(w: string, sep: char, t: string)
    requires sep !in w
    ensures Split(w + [sep] + t, sep) == [w] + Split(t, sep)
  {
    if w == [] {
      assert w + [sep] + t == [sep] + t;
      assert ([sep] + t)[1..] == t;
    } else {
      assert (w + [sep] + t)[1..] == w[1..] + [sep] + t;
      SplitPieceThenRest(w[1..], sep, t);
      assert w == [w[0]] + w[1..];
    }
  }

  /** Splitting at the separator undoes joining with it, provided no piece
      contains the separator and there is at least one piece. */
  lemma {:induction false} SplitJoin(ws: seq<string>, sep: char)
    requires ws != []
    requires forall i :: 0 <= i < |ws| ==> sep !in ws[i]
    ensures Split(Join(ws, [sep]), sep) == ws
  {
    if |ws| == 1 {
      SplitPiece(ws[0], sep);
    } else {
      SplitJoin(ws[1..], sep);
      SplitPieceThenRest(ws[0], sep, Join(ws[1..], [sep]));
      assert ws == [ws[0]] + ws[1..];
    }
  }

  /** There is one more piece than there are separators. */
  lemma {:induction false} SplitCount(s: string, sep: char)
    ensures |Split(s, sep)| == CountOf(s, sep) + 1
  {
    if s != [] {
      SplitCount(s[1..], sep);
    }
  }

  /** Joining n >= 1 separator-free pieces writes exactly n - 1 separators. */
  lemma JoinSeparatorCount(ws: seq<string>, sep: char)
    requires ws != []
    requires forall i :: 0 <= i < |ws| ==> sep !in ws[i]
    ensures CountOf(Join(ws, [sep]), sep) == |ws| - 1
  {
    SplitJoin(ws, sep);
    SplitCount(Join(ws, [sep]), sep);
  }

  /** Joining the pieces back with the separator restores the text, and no
      piece contains the separator: Split is a left inverse of Join. */
  lemma {:induction false} JoinSplit(s: string, sep: char)
    ensures Join(Split(s, sep), [sep]) == s
    ensures forall i :: 0 <= i < |Split(s, sep)| ==> sep !in Split(s, sep)[i]
  {
    if s != [] {
      JoinSplit(s[1..], sep);
      var rest := Split(s[1..], sep);
      HeadThenTail(s);
      if s[0] == sep {
        JoinEmptyFirst(rest, [sep]);
      } else {
        JoinExtendFirst(s[0], rest, [sep]);
        SplitPiecesExtendFirst(s[0], rest, sep);
      }
    }
  }

  /** An empty first piece contributes only its separator. */
  lemma JoinEmptyFirst(rest: seq<string>, sep: string)
    requires rest != []
    ensures Join([""] + rest, sep) == sep + Join(rest, sep)
  {
    assert ([""] + rest)[1..] == rest;
  }

  /** A character put in front of the first piece comes first in the text. */
  lemma JoinExtendFirst(c: char, rest: seq<string>, sep: string)
    requires rest != []
    ensures Join([[c] + rest[0]] + rest[1..], sep) == [c] + Join(rest, sep)
  {
    var ws := [[c] + rest[0]] + rest[1..];
    assert ws[1..] == rest[1..];
    if |rest| > 1 {
      ConcatAssociative([c], rest[0], sep);
      ConcatAssociative([c], rest[0] + sep, Join(rest[1..], sep));
    }
  }

  /** Extending the first piece by a character other than the separator keeps
      every piece free of the separator. */
  lemma SplitPiecesExtendFirst(c: char, rest: seq<string>, sep: char)
    requires rest != [] && c != sep
    requires forall i :: 0 <= i < |rest| ==> sep !in rest[i]
    ensures forall i :: 0 <= i < |rest| ==> sep !in ([[c] + rest[0]] + rest[1..])[i]
  {
    var ws := [[c] + rest[0]] + rest[1..];
    forall i | 0 <= i < |rest| ensures sep !in ws[i] {
      if i > 0 {
        assert ws[i] == rest[i];
      }
    }
  }

  /** The total number of characters in the pieces. */
  function TotalLength(ws: seq<string>): nat {
    if ws == [] then 0 else |ws[0]| + TotalLength(ws[1..])
  }

  /** A joined text holds the characters of its pieces plus one separator
      between each two neighbours. */
  lemma {:induction false} JoinLength(ws: seq<string>, sep: string)
    requires ws != []
    ensures |Join(ws, sep)| == TotalLength(ws) + |sep| * (|ws| - 1)
  {
    if |ws| > 1 {
      JoinLength(ws[1..], sep);
    }
  }
}
