/** Word sets: the sorted, duplicate-free vectors that exercises 14 and 18
    build from the tokens of a file (normalise every token with
    `normalize_word`, std::sort, std::unique + erase), and the
    std::set_intersection of two of them. */
module WordSets {
  import opened Orders
  import opened Sequences
  import opened Algorithms
  import opened Text

  /** A word set is strictly ascending in std::string order. */
  ghost predicate IsWordSet(ws: seq<string>) {
    StrictlyAscendingBy(ws, Less)
  }

  /** The distinct normalised forms of the tokens. */
  function NormalizedWords(tokens: seq<string>): set<string> {
    set i | 0 <= i < |tokens| :: Normalized(tokens[i])
  }

  /** CppAlgorithmsExercise/main.cpp:107-115 (and 151-163): transform the
      tokens with normalize_word into a back_inserter, sort the vector, then
      unique + erase. The result is strictly ascending, holds exactly the
      distinct normalised tokens, and is no longer than the token list. */
  method BuildWordSet(org: seq<string>) returns (words: seq<string>)
    ensures IsWordSet(words)
    ensures forall w :: w in words <==> w in NormalizedWords(org)
    ensures |words| <= |org|
  {
    var normalized: seq<string> := [];
    var i := 0;
    while i < |org|
      invariant 0 <= i <= |org|
      invariant |normalized| == i
      invariant forall j :: 0 <= j < i ==> normalized[j] == Normalized(org[j])
    {
      var w := NormalizeWord(org[i]);
      normalized := normalized + [w];
      i := i + 1;
    }
    var a := new string[|normalized|](j requires 0 <= j < |normalized| => normalized[j]);
    assert a[..] == normalized;
    StringOrder();
    SortInPlace(a, Less);
    ghost var sorted := a[..];
    var k := Unique(a);
    words := a[..k];
    DedupOfSorted(sorted, Less);
    DedupMembers(sorted);
    NormalizedMembers(org, normalized, sorted);
  }

  /** The normalised tokens, in any order, hold exactly the normalised words. */
  lemma NormalizedMembers(org: seq<string>, normalized: seq<string>, sorted: seq<string>)
    requires |normalized| == |org|
    requires forall j :: 0 <= j < |org| ==> normalized[j] == Normalized(org[j])
    requires multiset(sorted) == multiset(normalized)
    ensures forall w :: w in sorted <==> w in NormalizedWords(org)
  {
    forall w ensures w in sorted <==> w in NormalizedWords(org) {
      assert w in sorted <==> w in multiset(normalized);
      if w in NormalizedWords(org) {
        var j :| 0 <= j < |org| && Normalized(org[j]) == w;
        assert normalized[j] == w;
      }
    }
  }

  /** Exercises 14 and 15 (CppAlgorithmsExercise/main.cpp:100-122): the word
      set of a file, and the number of tokens it holds. The count is taken
      before deduplication, so it is at least the size of the word set. */
  method DistinctWords(file: string) returns (words: seq<string>, total: nat)
    ensures total == |Tokens(file)|
    ensures IsWordSet(words)
    ensures forall w :: w in words <==> w in NormalizedWords(Tokens(file))
    ensures |words| <= total
  {
    var org := Tokens(file);
    words := BuildWordSet(org);
    total := |org|;
  }

  /** An empty file: whatever DistinctWords promises for it leaves an empty
      word set and a total of 0. */
  lemma EmptyFileHasNoWords(words: seq<string>, total: nat)
    requires total == |Tokens("")|
    requires IsWordSet(words)
    requires forall w :: w in words <==> w in NormalizedWords(Tokens(""))
    ensures words == [] && total == 0
  {
    assert NormalizedWords(Tokens("")) == {};
    FirstIsMember(words);
  }

  lemma FirstIsMember(s: seq<string>)
    ensures s != [] ==> s[0] in s
  {
  }

  /* ---------------- set_intersection ---------------- */

  /** An element below the first of a sorted sequence is not in it. */
  lemma BelowFirst(x: string, s: seq<string>)
    requires s != [] && SortedBy(s, Less)
    requires Less(x, s[0])
    ensures multiset(s)[x] == 0
  {
    LessIrreflexive(s[0]);
    forall j | 0 <= j < |s| ensures s[j] != x {
      assert !Less(s[j], s[0]);
    }
  }

  /** The step of set_intersection that skips the smaller head `a[0]`. */
  lemma SkipStep(a: seq<string>, b: seq<string>)
    requires a != [] && b != [] && SortedBy(a, Less) && SortedBy(b, Less)
    requires Less(a[0], b[0])
    ensures SortedBy(a[1..], Less)
    ensures multiset(a) * multiset(b) == multiset(a[1..]) * multiset(b)
    ensures IsWordSet(a) ==> IsWordSet(a[1..])
  {
    BelowFirst(a[0], b);
    assert a == [a[0]] + a[1..];
    var ma, mb := multiset(a[1..]), multiset(b);
    assert forall y :: ((multiset{a[0]} + ma) * mb)[y] == (ma * mb)[y];
  }

  lemma MultisetCommon(x: string, ma: multiset<string>, mb: multiset<string>)
    ensures (multiset{x} + ma) * (multiset{x} + mb) == multiset{x} + ma * mb
  {
    assert forall y :: ((multiset{x} + ma) * (multiset{x} + mb))[y] == (multiset{x} + ma * mb)[y];
  }

  lemma InFirst(r: seq<string>, a: seq<string>, b: seq<string>)
    requires multiset(r) == multiset(a) * multiset(b)
    ensures forall i :: 0 <= i < |r| ==> r[i] in a
  {
    forall i | 0 <= i < |r| ensures r[i] in a {
      assert r[i] in multiset(r);
    }
  }

  /** The step of set_intersection that emits the common head. */
  lemma EmitStep(a: seq<string>, b: seq<string>, rest: seq<string>)
    requires a != [] && b != [] && SortedBy(a, Less) && SortedBy(b, Less)
    requires a[0] == b[0]
    requires SortedBy(rest, Less)
    requires multiset(rest) == multiset(a[1..]) * multiset(b[1..])
    requires IsWordSet(a[1..]) ==> IsWordSet(rest)
    ensures SortedBy([a[0]] + rest, Less)
    ensures multiset([a[0]] + rest) == multiset(a) * multiset(b)
    ensures IsWordSet(a) ==> IsWordSet([a[0]] + rest)
  {
    EmitMultiset(a, b, rest);
    InFirst(rest, a[1..], b[1..]);
    EmitOrder(a, rest);
  }

  lemma EmitMultiset(a: seq<string>, b: seq<string>, rest: seq<string>)
    requires a != [] && b != [] && a[0] == b[0]
    requires multiset(rest) == multiset(a[1..]) * multiset(b[1..])
    ensures multiset([a[0]] + rest) == multiset(a) * multiset(b)
  {
    HeadThenTail(a);
    HeadThenTail(b);
    MultisetCommon(a[0], multiset(a[1..]), multiset(b[1..]));
  }

  lemma EmitOrder(a: seq<string>, rest: seq<string>)
    requires a != [] && SortedBy(a, Less) && SortedBy(rest, Less)
    requires forall i :: 0 <= i < |rest| ==> rest[i] in a[1..]
    requires IsWordSet(a[1..]) ==> IsWordSet(rest)
    ensures SortedBy([a[0]] + rest, Less)
    ensures IsWordSet(a) ==> IsWordSet([a[0]] + rest)
  {
    var x := a[0];
    forall i | 0 <= i < |rest| ensures !Less(rest[i], x) {
      var k :| 1 <= k < |a| && a[k] == rest[i];
    }
    ConsSorted(x, rest, Less);
    if IsWordSet(a) {
      forall i | 0 <= i < |rest| ensures Less(x, rest[i]) {
        var k :| 1 <= k < |a| && a[k] == rest[i];
      }
      ConsAscending(x, rest, Less);
    }
  }

  /** std::set_intersection (CppAlgorithmsExercise/main.cpp:168): two cursors
      over sorted inputs; the smaller current element is skipped, equal ones
      are emitted once (from the first range) and both cursors advance. On
      sorted inputs the result is sorted and holds each element as often as
      the smaller of its two counts; on a strictly ascending first input it
      is strictly ascending. */
  function Intersection(a: seq<string>, b: seq<string>): (r: seq<string>)
    requires SortedBy(a, Less) && SortedBy(b, Less)
    ensures SortedBy(r, Less)
    ensures multiset(r) == multiset(a) * multiset(b)
    ensures IsWordSet(a) ==> IsWordSet(r)
    decreases |a| + |b|
  {
    if a == [] || b == [] then []
    else if Less(a[0], b[0]) then
      SkipStep(a, b);
      Intersection(a[1..], b)
    else if Less(b[0], a[0]) then
      SkipStep(b, a);
      assert multiset(b) * multiset(a) == multiset(a) * multiset(b);
      assert multiset(b[1..]) * multiset(a) == multiset(a) * multiset(b[1..]);
      Intersection(a, b[1..])
    else
      LessTotal(a[0], b[0]);
      var rest := Intersection(a[1..], b[1..]);
      EmitStep(a, b, rest);
      [a[0]] + rest
  }

  /** On two word sets the intersection is a word set holding exactly the
      words present in both; it is empty when either input is, and it does
      not depend on the order of the inputs. */
  lemma IntersectionOfWordSets(a: seq<string>, b: seq<string>)
    requires IsWordSet(a) && IsWordSet(b)
    ensures SortedBy(a, Less) && SortedBy(b, Less)
    ensures IsWordSet(Intersection(a, b))
    ensures forall w :: w in Intersection(a, b) <==> w in a && w in b
    ensures a == [] || b == [] ==> Intersection(a, b) == []
    ensures Intersection(a, b) == Intersection(b, a)
  {
    StringOrder();
    StrictlyAscendingIsSorted(a, Less);
    StrictlyAscendingIsSorted(b, Less);
    var r := Intersection(a, b);
    forall w ensures w in r <==> w in a && w in b {
      assert w in r <==> multiset(r)[w] > 0;
    }
    assert multiset(a) * multiset(b) == multiset(b) * multiset(a);
    SortedUnique(r, Intersection(b, a), Less);
  }

  /** Exercise 18 (CppAlgorithmsExercise/main.cpp:139-169): the words common
      to two files, in ascending order, each once. */
  method CommonWords(file1: string, file2: string) returns (common: seq<string>)
    ensures IsWordSet(common)
    ensures forall w :: w in common <==>
      w in NormalizedWords(Tokens(file1)) && w in NormalizedWords(Tokens(file2))
  {
    var words1 := BuildWordSet(Tokens(file1));
    var words2 := BuildWordSet(Tokens(file2));
    IntersectionOfWordSets(words1, words2);
    common := Intersection(words1, words2);
  }

  /** A word set is determined by its members: two word sets holding the
      same words are the same vector. So BuildWordSet's result is THE
      ascending list of the distinct normalised tokens. */
  lemma WordSetUnique(a: seq<string>, b: seq<string>)
    requires IsWordSet(a) && IsWordSet(b)
    requires forall w :: w in a <==> w in b
    ensures a == b
  {
    StringOrder();
    AscendingUnique(a, b, Less);
  }

  /** A token without letters normalises to the empty word, which stays a
      member of the word set like any other. */
  lemma LetterlessTokenGivesEmptyWord(tokens: seq<string>, i: nat)
    requires i < |tokens|
    requires forall j :: 0 <= j < |tokens[i]| ==> !IsAlpha(tokens[i][j])
    ensures "" in NormalizedWords(tokens)
  {
    NormalizedFacts(tokens[i]);
  }

  /* ---------------- worked examples ---------------- */

  lemma NormalizedWorld()
    ensures Normalized("world!") == "world"
  {
    var token: string := "world!";
    assert token == "world" + ['!'];
    NormalizedLettersThenMark("world", '!');
  }

  lemma HelloWorldMember(w: string, tokens: seq<string>)
    requires tokens == ["Hello,", "world!", "HELLO"]
    requires w in NormalizedWords(tokens)
    ensures w == "Hello" || w == "world" || w == "HELLO"
  {
    NormalizedHelloComma();
    NormalizedHELLO();
    NormalizedWorld();
    var i :| 0 <= i < |tokens| && Normalized(tokens[i]) == w;
    assert i == 0 || i == 1 || i == 2;
  }

  lemma HelloWorldMembers(tokens: seq<string>)
    requires tokens == ["Hello,", "world!", "HELLO"]
    ensures "Hello" in NormalizedWords(tokens)
    ensures "world" in NormalizedWords(tokens)
    ensures "HELLO" in NormalizedWords(tokens)
  {
    NormalizedHelloComma();
    NormalizedHELLO();
    NormalizedWorld();
    assert Normalized(tokens[0]) == "Hello";
    assert Normalized(tokens[1]) == "world";
    assert Normalized(tokens[2]) == "HELLO";
  }

  lemma HelloWorldNormalized(tokens: seq<string>)
    requires tokens == ["Hello,", "world!", "HELLO"]
    ensures NormalizedWords(tokens) == {"Hello", "world", "HELLO"}
  {
    forall w | w in NormalizedWords(tokens) ensures w in {"Hello", "world", "HELLO"} {
      HelloWorldMember(w, tokens);
    }
    HelloWorldMembers(tokens);
  }

  lemma HelloWorldAscending()
    ensures IsWordSet(["HELLO", "Hello", "world"])
  {
    assert Less("HELLO", "Hello") by {
      assert "HELLO"[1..] == "ELLO" && "Hello"[1..] == "ello";
    }
    assert Less("HELLO", "world");
    assert Less("Hello", "world");
  }

  /** The tokens "Hello,", "world!" and "HELLO" give, as the program is
      written, the word set ["HELLO", "Hello", "world"]: case is kept and
      uppercase letters sort before lowercase ones. */
  lemma HelloWorldWordSet(tokens: seq<string>, words: seq<string>)
    requires tokens == ["Hello,", "world!", "HELLO"]
    requires IsWordSet(words)
    requires forall w :: w in words <==> w in NormalizedWords(tokens)
    ensures words == ["HELLO", "Hello", "world"]
  {
    HelloWorldNormalized(tokens);
    HelloWorldAscending();
    StringOrder();
    AscendingUnique(words, ["HELLO", "Hello", "world"], Less);
  }

  /** ["cat", "dog", "fish"] and ["dog", "fish", "zebra"] have ["dog", "fish"]
      in common. */
  lemma CatDogFishAscending(a: seq<string>, b: seq<string>, c: seq<string>)
    requires a == ["cat", "dog", "fish"] && b == ["dog", "fish", "zebra"] && c == ["dog", "fish"]
    ensures IsWordSet(a) && IsWordSet(b) && IsWordSet(c)
  {
    assert Less("cat", "dog") && Less("cat", "fish") && Less("dog", "fish");
    assert Less("dog", "zebra") && Less("fish", "zebra");
  }

  /** The intersection of cat, dog, fish and dog, fish, zebra is dog, fish. */
  lemma CatDogFishIntersection(a: seq<string>, b: seq<string>)
    requires a == ["cat", "dog", "fish"] && b == ["dog", "fish", "zebra"]
    ensures IsWordSet(a) && IsWordSet(b)
    ensures SortedBy(a, Less) && SortedBy(b, Less)
    ensures Intersection(a, b) == ["dog", "fish"]
  {
    var expected := ["dog", "fish"];
    CatDogFishAscending(a, b, expected);
    IntersectionOfWordSets(a, b);
    assert "cat" != "dog" && "cat" != "fish" && "zebra" != "dog" && "zebra" != "fish";
    WordSetUnique(Intersection(a, b), expected);
  }
}
