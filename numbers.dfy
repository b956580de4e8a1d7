/** The integer exercises of main() (CppAlgorithmsExercise/main.cpp:29-90 and
    171-174) on a given vector: first maximum and its index, sum, odd count,
    sorted copy and the elements above 455, copy of the odd elements,
    descending sort, removal of the odd elements, the comma-separated file
    line, and 6! as a product. The random fill is replaced by an input
    vector. Dafny's `int` is unbounded; with the program's 10 values in
    0..1000 no intermediate result leaves the 32-bit range, which
    SumBounds and FactorialOfSix show. */
module Numbers {
  import opened Orders
  import opened Sequences
  import opened Algorithms

  /** `[](int x) { return x % 2; }` used as a condition: C++'s `%` truncates,
      so the remainder is -1, 0 or 1 and is non-zero exactly for odd x; the
      Euclidean `%` here is 1 or 0 and is non-zero for the same x. */
  predicate IsOdd(x: int) {
    x % 2 != 0
  }

  /** C++'s `%` on int, which truncates toward zero: the remainder has the
      sign of the dividend. */
  function TruncatedRemainder(x: int, m: int): (r: int)
    requires m > 0
    ensures -m < r < m
    ensures x >= 0 ==> r >= 0
    ensures x < 0 ==> r <= 0
    ensures x == m * TruncatedQuotient(x, m) + r
  {
    if x >= 0 then x % m else -((-x) % m)
  }

  /** C++'s `/` on int: the quotient rounded toward zero. */
  function TruncatedQuotient(x: int, m: int): int
    requires m > 0
  {
    if x >= 0 then x / m else -((-x) / m)
  }

  /** The lambda's condition `x % 2`, computed with C++'s truncating `%`, is
      true exactly where IsOdd holds. */
  lemma IsOddIsTruncatedTest(x: int)
    ensures IsOdd(x) <==> TruncatedRemainder(x, 2) != 0
  {
  }

  /** The value upper_bound is asked about in exercise 8. */
  const Threshold := 455

  predicate AboveThreshold(x: int) {
    x > Threshold
  }

  function Plus(x: int, y: int): int { x + y }

  /** std::multiplies<int>. */
  function Times(x: int, y: int): int { x * y }

  /* ---------------- max_element / distance ---------------- */

  /** std::max_element followed by std::distance from the beginning: the
      index of the FIRST largest element, or |s| (the end) when `s` is
      empty. The scan replaces its candidate only by a strictly greater
      element. */
  function MaxElementIndex(s: seq<int>): (k: nat)
    ensures k <= |s|
    ensures k == |s| <==> s == []
    ensures s != [] ==> forall j :: 0 <= j < |s| ==> s[j] <= s[k]
    ensures s != [] ==> forall j :: 0 <= j < k ==> s[j] < s[k]
  {
    if |s| <= 1 then 0
    else
      var k := MaxElementIndex(s[..|s| - 1]);
      if s[k] < s[|s| - 1] then |s| - 1 else k
  }

  /** Only one index is a first maximum, so the two properties of
      MaxElementIndex determine it. */
  lemma FirstMaximumUnique(s: seq<int>, k: nat)
    requires k < |s|
    requires forall j :: 0 <= j < |s| ==> s[j] <= s[k]
    requires forall j :: 0 <= j < k ==> s[j] < s[k]
    ensures k == MaxElementIndex(s)
  {
    var m := MaxElementIndex(s);
    assert !(m < k) && !(k < m);
  }

  /* ---------------- accumulate ---------------- */

  /** std::accumulate: a left fold starting from `init`. */
  function Accumulate(s: seq<int>, init: int, op: (int, int) -> int): int {
    if s == [] then init else Accumulate(s[1..], op(init, s[0]), op)
  }

  /** The sum of the elements, as an independent reference. */
  function Total(s: seq<int>): int {
    if s == [] then 0 else s[0] + Total(s[1..])
  }

  /** accumulate(s, init, +) is init plus the total of `s`. */
  lemma {:induction false} AccumulateSum(s: seq<int>, init: int)
    ensures Accumulate(s, init, Plus) == init + Total(s)
  {
    if s != [] {
      AccumulateSum(s[1..], init + s[0]);
    }
  }

  lemma {:induction false} AccumulateSnoc(s: seq<int>, x: int, init: int, op: (int, int) -> int)
    ensures Accumulate(s + [x], init, op) == op(Accumulate(s, init, op), x)
  {
    if s == [] {
      assert ([x])[1..] == [];
    } else {
      assert (s + [x])[1..] == s[1..] + [x];
      AccumulateSnoc(s[1..], x, op(init, s[0]), op);
    }
  }

  /** With every element in 0..1000 the sum lies in 0..1000 * |s|; for the
      program's 10 elements that is at most 10000. */
  lemma {:induction false} SumBounds(s: seq<int>)
    requires forall i :: 0 <= i < |s| ==> 0 <= s[i] <= 1000
    ensures 0 <= Total(s) <= 1000 * |s|
  {
    if s != [] {
      SumBounds(s[1..]);
    }
  }

  /** The largest value of a 32-bit `int`. */
  const IntMax := 0x7fff_ffff

  /** Ten values in 0..1000, as the program's random fill draws them, have
      running totals between 0 and 10000: the `int` accumulation of
      exercise 5 cannot overflow. */
  lemma RunningTotalsFit(vec: seq<int>)
    requires |vec| == 10
    requires forall i :: 0 <= i < |vec| ==> 0 <= vec[i] <= 1000
    ensures forall k :: 0 <= k <= |vec| ==> 0 <= Total(vec[..k]) <= 10000 <= IntMax
  {
    forall k | 0 <= k <= |vec|
      ensures 0 <= Total(vec[..k]) <= 10000
    {
      SumBounds(vec[..k]);
    }
  }

  /* ---------------- upper_bound ---------------- */

  /** std::upper_bound on s[lo..hi], a binary search whose test is
      `v < element`: the first position in the range whose element is
      greater than `v`, or `hi`. */
  function UpperBound(s: seq<int>, v: int, lo: nat, hi: nat): (k: nat)
    requires lo <= hi <= |s|
    requires SortedBy(s, IntLess)
    ensures lo <= k <= hi
    ensures forall i :: lo <= i < k ==> s[i] <= v
    ensures forall i :: k <= i < hi ==> s[i] > v
    decreases hi - lo
  {
    if lo == hi then lo
    else
      var mid := lo + (hi - lo) / 2;
      if v < s[mid] then UpperBound(s, v, lo, mid)
      else UpperBound(s, v, mid + 1, hi)
  }

  lemma {:induction false} CountIfNone(s: seq<int>, p: int -> bool)
    requires forall i :: 0 <= i < |s| ==> !p(s[i])
    ensures CountIf(s, p) == 0
  {
    if s != [] {
      CountIfNone(s[1..], p);
    }
  }

  lemma {:induction false} CountIfAll(s: seq<int>, p: int -> bool)
    requires forall i :: 0 <= i < |s| ==> p(s[i])
    ensures CountIf(s, p) == |s|
  {
    if s != [] {
      CountIfAll(s[1..], p);
    }
  }

  /** When the elements failing `p` all come before those satisfying it, the
      count is the length of the second part. */
  lemma CountIfAfter(s: seq<int>, k: nat, p: int -> bool)
    requires k <= |s|
    requires forall i :: 0 <= i < k ==> !p(s[i])
    requires forall i :: k <= i < |s| ==> p(s[i])
    ensures CountIf(s, p) == |s| - k
  {
    TakeDrop(s, k);
    CountIfConcat(s[..k], s[k..], p);
    CountIfNone(s[..k], p);
    CountIfAll(s[k..], p);
  }

  lemma TakeDrop(s: seq<int>, k: nat)
    requires k <= |s|
    ensures s == s[..k] + s[k..]
  {
  }

  /** On a sorted sequence, the distance from upper_bound(455) to the end is
      the number of elements greater than 455. */
  lemma UpperBoundTail(s: seq<int>)
    requires SortedBy(s, IntLess)
    ensures |s| - UpperBound(s, Threshold, 0, |s|) == CountIf(s, AboveThreshold)
  {
    CountIfAfter(s, UpperBound(s, Threshold, 0, |s|), AboveThreshold);
  }

  /** Exercise 8 (CppAlgorithmsExercise/main.cpp:54-58): copy the vector,
      sort the copy, and take the distance from upper_bound(455) to the end.
      The copy is the sorted permutation of the vector, `first` is the
      position of its first element above 455, and the count equals the
      number of elements of the ORIGINAL vector above 455. */
  method CountAboveThreshold(vec: seq<int>) returns (sorted: seq<int>, first: nat, count: nat)
    ensures SortedBy(sorted, IntLess) && multiset(sorted) == multiset(vec)
    ensures first + count == |sorted| == |vec|
    ensures forall i :: 0 <= i < first ==> sorted[i] <= Threshold
    ensures forall i :: first <= i < |sorted| ==> sorted[i] > Threshold
    ensures count == CountIf(vec, AboveThreshold)
  {
    var a := new int[|vec|](i requires 0 <= i < |vec| => vec[i]);
    assert a[..] == vec;
    IntOrders();
    SortInPlace(a, IntLess);
    sorted := a[..];
    first := UpperBound(sorted, Threshold, 0, |sorted|);
    count := |sorted| - first;
    UpperBoundTail(sorted);
    CountIfPermutation(sorted, vec, AboveThreshold);
  }

  /* ---------------- the file line ---------------- */

  function DigitChar(d: nat): (c: char)
    requires d < 10
    ensures '0' <= c <= '9'
  {
    ('0' as int + d) as char
  }

  /** The decimal digits of `n`, most significant first, without leading
      zeros. */
  function Digits(n: nat): (r: string)
    ensures r != []
    ensures forall i :: 0 <= i < |r| ==> '0' <= r[i] <= '9'
    ensures r[0] == '0' ==> n == 0
  {
    if n < 10 then [DigitChar(n)] else Digits(n / 10) + [DigitChar(n % 10)]
  }

  /** How operator<< writes an int: a minus sign for negative values, then
      the digits. */
  function Decimal(n: int): (r: string)
    ensures ',' !in r
  {
    if n < 0 then "-" + Digits(-n) else Digits(n)
  }

  /** The value of a string of decimal digits. */
  function DigitsValue(s: string): int
    requires forall i :: 0 <= i < |s| ==> '0' <= s[i] <= '9'
  {
    if s == [] then 0
    else 10 * DigitsValue(s[..|s| - 1]) + (s[|s| - 1] as int - '0' as int)
  }

  /** Reading the digits back gives the number. */
  lemma {:induction false} DigitsRoundTrip(n: nat)
    ensures DigitsValue(Digits(n)) == n
  {
    if n >= 10 {
      DigitsRoundTrip(n / 10);
      var d := Digits(n / 10) + [DigitChar(n % 10)];
      assert d[..|d| - 1] == Digits(n / 10);
    }
  }

  /** An optional minus sign followed by decimal digits. */
  ghost predicate IsDecimalText(s: string) {
    if s != [] && s[0] == '-' then AllDigits(s[1..]) else AllDigits(s)
  }

  ghost predicate AllDigits(s: string) {
    forall i :: 0 <= i < |s| ==> '0' <= s[i] <= '9'
  }

  /** The value of a possibly negative decimal text. */
  ghost function DecimalValue(s: string): int
    requires IsDecimalText(s)
  {
    if s != [] && s[0] == '-' then -DigitsValue(s[1..]) else DigitsValue(s)
  }

  /** What operator<< writes for an int reads back to that int. */
  lemma DecimalRoundTrip(n: int)
    ensures IsDecimalText(Decimal(n))
    ensures DecimalValue(Decimal(n)) == n
  {
    if n < 0 {
      var d := Digits(-n);
      assert Decimal(n) == "-" + d;
      assert ("-" + d)[0] == '-' && ("-" + d)[1..] == d;
      DigitsRoundTrip(-n);
    } else {
      var d := Digits(n);
      assert Decimal(n) == d && d[0] != '-';
      DigitsRoundTrip(n);
    }
  }

  /** The decimal forms of the elements of `v`, in order. */
  function Decimals(v: seq<int>): (r: seq<string>)
    ensures |r| == |v|
    ensures forall i :: 0 <= i < |v| ==> r[i] == Decimal(v[i])
  {
    seq(|v|, i requires 0 <= i < |v| => Decimal(v[i]))
  }

  /** The line exercise 13 writes: the elements joined by ",". */
  function CsvLine(v: seq<int>): string {
    Join(Decimals(v), ",")
  }

  /** CppAlgorithmsExercise/main.cpp:85-91: when the file opened and the
      vector is not empty, every element but the last is written followed by
      "," and then the last without one; otherwise nothing is written. */
  method WriteVector(isOpen: bool, vec: seq<int>) returns (contents: string)
    ensures contents == if isOpen && vec != [] then CsvLine(vec) else ""
  {
    contents := "";
    if isOpen && |vec| > 0 {
      var i := 0;
      while i < |vec| - 1
        invariant 0 <= i <= |vec| - 1
        invariant i == 0 ==> contents == ""
        invariant i > 0 ==> contents == CsvLine(vec[..i]) + ","
      {
        CsvLinePrefix(vec, i);
        contents := contents + Decimal(vec[i]) + ",";
        i := i + 1;
      }
      CsvLinePrefix(vec, i);
      contents := contents + Decimal(vec[i]);
      assert vec[..i + 1] == vec;
    }
  }

  /** The line of a prefix grows by one element at a time: the first element
      alone, then "," and the next element. */
  lemma CsvLinePrefix(v: seq<int>, i: nat)
    requires i < |v|
    ensures i == 0 ==> CsvLine(v[..1]) == Decimal(v[0])
    ensures i > 0 ==> CsvLine(v[..i + 1]) == CsvLine(v[..i]) + "," + Decimal(v[i])
  {
    assert Decimals(v[..i]) + [Decimal(v[i])] == Decimals(v[..i + 1]);
    if i > 0 {
      JoinSnoc(Decimals(v[..i]), Decimal(v[i]), ",");
    } else {
      assert Decimals(v[..1]) == [Decimal(v[0])];
    }
  }

  /** The line holds n - 1 commas for n >= 1 elements, splits at its commas
      back into the elements' decimal forms, and is empty exactly for the
      empty vector. */
  lemma CsvLineFacts(v: seq<int>)
    ensures v == [] <==> CsvLine(v) == ""
    ensures v != [] ==> CountOf(CsvLine(v), ',') == |v| - 1
    ensures v != [] ==> Split(CsvLine(v), ',') == Decimals(v)
  {
    if v != [] {
      JoinSeparatorCount(Decimals(v), ',');
      SplitJoin(Decimals(v), ',');
      if |v| > 1 {
        assert |CsvLine(v)| >= |Decimal(v[0])| > 0;
      }
    }
  }

  lemma SingleDigitDecimal(d: nat)
    requires d < 10
    ensures Decimal(d) == [DigitChar(d)]
  {
  }

  lemma EvensDecimals(v: seq<int>)
    requires v == [8, 6, 4, 2, 0]
    ensures Decimals(v) == ["8", "6", "4", "2", "0"]
  {
    SingleDigitDecimal(8);
    SingleDigitDecimal(6);
    SingleDigitDecimal(4);
    SingleDigitDecimal(2);
    SingleDigitDecimal(0);
  }

  lemma EvensJoined(d: seq<string>)
    requires d == ["8", "6", "4", "2", "0"]
    ensures Join(d, ",") == "8,6,4,2,0"
  {
    assert Join(d[4..], ",") == "0";
    assert Join(d[3..], ",") == "2,0" by { assert d[3..][1..] == d[4..]; }
    assert Join(d[2..], ",") == "4,2,0" by { assert d[2..][1..] == d[3..]; }
    assert Join(d[1..], ",") == "6,4,2,0" by { assert d[1..][1..] == d[2..]; }
  }

  /** The even values 8, 6, 4, 2, 0 in descending order are written as
      "8,6,4,2,0". */
  lemma EvensWritten(v: seq<int>)
    requires v == [8, 6, 4, 2, 0]
    ensures CsvLine(v) == "8,6,4,2,0"
  {
    EvensDecimals(v);
    EvensJoined(Decimals(v));
  }

  /* ---------------- iota and the factorial ---------------- */

  /** std::iota: a[i] := first + i for every position. */
  method Iota(a: array<int>, first: int)
    modifies a
    ensures forall i :: 0 <= i < a.Length ==> a[i] == first + i
  {
    for i := 0 to a.Length
      invariant forall j :: 0 <= j < i ==> a[j] == first + j
    {
      a[i] := first + i;
    }
  }

  function Factorial(n: nat): nat {
    if n == 0 then 1 else n * Factorial(n - 1)
  }

  /** The product of 1, 2, ..., n is n!. */
  lemma {:induction false} ProductOfIota(s: seq<int>)
    requires forall i :: 0 <= i < |s| ==> s[i] == 1 + i
    ensures Accumulate(s, 1, Times) == Factorial(|s|)
  {
    if s != [] {
      var n := |s|;
      ProductOfIota(s[..n - 1]);
      assert s == s[..n - 1] + [s[n - 1]];
      AccumulateSnoc(s[..n - 1], s[n - 1], 1, Times);
    }
  }

  /** Exercise 19 (CppAlgorithmsExercise/main.cpp:171-174): a vector of six
      filled with 1..6 by iota and multiplied out by accumulate. */
  method FactorialOfSix() returns (f: int)
    ensures f == Factorial(6) == 720
  {
    var numbers := new int[6];
    Iota(numbers, 1);
    f := Accumulate(numbers[..], 1, Times);
    ProductOfIota(numbers[..]);
    assert Factorial(3) == 6;
    assert Factorial(6) == 720;
  }

  /* ---------------- the exercises in sequence ---------------- */

  /** Exercises 10-12 (CppAlgorithmsExercise/main.cpp:69, 79-80): sort the
      vector in descending order, then remove_if odd and erase the tail. */
  method DescendingEvens(vec: seq<int>) returns (descending: seq<int>, evens: seq<int>)
    ensures SortedBy(descending, IntGreater) && multiset(descending) == multiset(vec)
    ensures evens == Removed(descending, IsOdd)
  {
    var a := new int[|vec|](i requires 0 <= i < |vec| => vec[i]);
    assert a[..] == vec;
    IntOrders();
    SortInPlace(a, IntGreater);
    descending := a[..];
    var k := RemoveIf(a, IsOdd);
    evens := a[..k];
  }

  /** What exercises 3-13 compute. */
  datatype Report = Report(
    maxElement: int,
    maxIndex: nat,
    sum: int,
    oddCount: nat,
    sortedVec: seq<int>,
    aboveIndex: nat,
    aboveCount: nat,
    oddVec: seq<int>,
    descending: seq<int>,
    evens: seq<int>,
    file: string)

  /** Exercises 3-13 (CppAlgorithmsExercise/main.cpp:29-91) on the vector the
      program would have filled at random; `fileOpened` says whether vec.txt
      could be opened. The maximum is dereferenced, so the vector must not be
      empty; the program's fill (lines 19-24) draws 10 values in 0..1000, so
      every running total of the `int` sum fits in 32 bits. The shuffle of
      exercise 11 is not modelled: the odd elements are removed from the
      descending vector. */
  method NumberExercises(vec: seq<int>, fileOpened: bool) returns (r: Report)
    requires |vec| == 10
    requires forall i :: 0 <= i < |vec| ==> 0 <= vec[i] <= 1000
    ensures forall k :: 0 <= k <= |vec| ==> 0 <= Total(vec[..k]) <= IntMax
    ensures 0 <= r.sum <= 10000
    ensures r.maxIndex < |vec| && r.maxElement == vec[r.maxIndex]
    ensures forall j :: 0 <= j < |vec| ==> vec[j] <= r.maxElement
    ensures forall j :: 0 <= j < r.maxIndex ==> vec[j] < r.maxElement
    ensures r.sum == Total(vec)
    ensures r.oddCount == CountIf(vec, IsOdd) == |r.oddVec|
    ensures SortedBy(r.sortedVec, IntLess) && multiset(r.sortedVec) == multiset(vec)
    ensures r.aboveIndex + r.aboveCount == |vec|
    ensures r.aboveCount == CountIf(vec, AboveThreshold)
    ensures r.oddVec == Filter(vec, IsOdd)
    ensures SortedBy(r.descending, IntGreater) && multiset(r.descending) == multiset(vec)
    ensures r.evens == Removed(r.descending, IsOdd)
    ensures r.file == if fileOpened && r.evens != [] then CsvLine(r.evens) else ""
  {
    var maxIndex := MaxElementIndex(vec);
    var sum := Accumulate(vec, 0, Plus);
    AccumulateSum(vec, 0);
    RunningTotalsFit(vec);
    assert vec[..|vec|] == vec;
    var oddCount := CountIf(vec, IsOdd);
    var sortedVec, aboveIndex, aboveCount := CountAboveThreshold(vec);
    var oddVec := CopyIf(vec, IsOdd);
    FilterLength(vec, IsOdd);
    var descending, evens := DescendingEvens(vec);
    var file := WriteVector(fileOpened, evens);
    r := Report(vec[maxIndex], maxIndex, sum, oddCount, sortedVec, aboveIndex, aboveCount,
                oddVec, descending, evens, file);
  }

  /** What remove_if + erase leaves: exactly the even elements, in their
      relative order, as a subsequence of the vector; together with the odd
      ones they make up the whole vector. */
  lemma RemoveOddFacts(v: seq<int>)
    ensures forall i :: 0 <= i < |Removed(v, IsOdd)| ==> Removed(v, IsOdd)[i] % 2 == 0
    ensures forall x :: x in Removed(v, IsOdd) <==> x in v && x % 2 == 0
    ensures IsSubsequence(Removed(v, IsOdd), v)
    ensures |Removed(v, IsOdd)| == |v| - CountIf(v, IsOdd)
    ensures multiset(Removed(v, IsOdd)) + multiset(Filter(v, IsOdd)) == multiset(v)
  {
    RemovedIsSubsequence(v, IsOdd);
    RemovedMembers(v, IsOdd);
    FilterRemovedPartition(v, IsOdd);
    FilterLength(v, IsOdd);
  }
}
