/** Characters and words: the "C"-locale character classes, the word
    normaliser `normalize_word` (CppAlgorithmsExercise/main.cpp:93-98), the
    whitespace tokenisation that `istream_iterator<std::string>` performs,
    std::string's operator< and the newline count of exercise 16.

    Characters stand for the characters the text-mode input stream delivers,
    read as unsigned values 0..255; only the ASCII ones matter to any
    character class below. */
module Text {
  import opened Orders
  import opened Sequences
  import opened Algorithms

  /** isalpha in the "C" locale: the 52 ASCII letters. */
  predicate IsAlpha(c: char) {
    ('A' <= c <= 'Z') || ('a' <= c <= 'z')
  }

  /** isspace in the "C" locale: space, \t, \n, \v, \f and \r. */
  predicate IsSpace(c: char) {
    c == ' ' || c == '\t' || c == '\n' || c == '\U{B}' || c == '\U{C}' || c == '\r'
  }

  /** tolower in the "C" locale. */
  function ToLower(c: char): (r: char)
    ensures 'A' <= c <= 'Z' ==> 'a' <= r <= 'z' && r as int - 'a' as int == c as int - 'A' as int
    ensures IsAlpha(c) ==> IsAlpha(r) && 'a' <= r <= 'z'
    ensures !('A' <= c <= 'Z') ==> r == c
  {
    if 'A' <= c <= 'Z' then (c as int + 32) as char else c
  }

  /** std::transform(first, last, first, tolower) on a string: every character
      at a position in [first, last) is lowercased in place, the others are
      left alone. */
  method TransformToLower(word: string, first: nat, last: nat) returns (out: string)
    requires first <= last <= |word|
    ensures |out| == |word|
    ensures forall i :: first <= i < last ==> out[i] == ToLower(word[i])
    ensures forall i :: 0 <= i < |word| && !(first <= i < last) ==> out[i] == word[i]
  {
    out := word;
    var i := first;
    while i < last
      invariant first <= i <= last
      invariant |out| == |word|
      invariant forall j :: first <= j < i ==> out[j] == ToLower(word[j])
      invariant forall j :: 0 <= j < |word| && !(first <= j < i) ==> out[j] == word[j]
    {
      out := out[i := ToLower(out[i])];
      i := i + 1;
    }
  }

  /** normalize_word as written: copy_if keeps the letters of `s` in order,
      then the lowercasing transform runs over the EMPTY range
      [begin(word), begin(word)), so the letters keep their case. */
  method NormalizeWord(s: string) returns (word: string)
    ensures word == Filter(s, IsAlpha)
  {
    word := CopyIf(s, IsAlpha);
    ghost var copied := word;
    word := TransformToLower(word, 0, 0);
    assert word == copied;
  }

  /** What normalize_word returns, as a function of the token. */
  function Normalized(s: string): string {
    Filter(s, IsAlpha)
  }

  /** The normaliser keeps exactly the letters of the token, in order: its
      result is a subsequence of the token, is made of letters only, has as
      many characters as the token has letters, and is no longer than the
      token. Any such subsequence is the result. A token without letters
      normalises to "". Normalising twice changes nothing more. */
  lemma NormalizedFacts(s: string)
    ensures IsSubsequence(Normalized(s), s)
    ensures forall i :: 0 <= i < |Normalized(s)| ==> IsAlpha(Normalized(s)[i])
    ensures |Normalized(s)| == CountIf(s, IsAlpha) <= |s|
    ensures (forall i :: 0 <= i < |s| ==> !IsAlpha(s[i])) ==> Normalized(s) == ""
    ensures Normalized(Normalized(s)) == Normalized(s)
  {
    FilterIsSubsequence(s, IsAlpha);
    FilterLength(s, IsAlpha);
    FilterIdempotent(s, IsAlpha);
    FilterMembers(s, IsAlpha);
    assert |Normalized(s)| > 0 ==> Normalized(s)[0] in s;
  }

  /** Uniqueness: a subsequence of the token made of letters only and with
      as many characters as the token has letters is the normalised word. */
  lemma NormalizedIsTheLetterSubsequence(r: string, s: string)
    requires IsSubsequence(r, s)
    requires forall i :: 0 <= i < |r| ==> IsAlpha(r[i])
    requires |r| == CountIf(s, IsAlpha)
    ensures r == Normalized(s)
  {
    FilterCharacterised(r, s, IsAlpha);
  }

  /** Letters followed by one punctuation mark normalise to the letters. */
  lemma NormalizedLettersThenMark(w: string, c: char)
    requires forall i :: 0 <= i < |w| ==> IsAlpha(w[i])
    requires !IsAlpha(c)
    ensures Normalized(w + [c]) == w
  {
    FilterKeepsAll(w, IsAlpha);
    FilterConcat(w, [c], IsAlpha);
    FilterCons(c, [], IsAlpha);
    assert [c] + [] == [c];
  }

  lemma NormalizedHelloComma()
    ensures Normalized("Hello,") == "Hello"
  {
    var token: string := "Hello,";
    assert token == "Hello" + [','];
    NormalizedLettersThenMark("Hello", ',');
  }

  lemma NormalizedHELLO()
    ensures Normalized("HELLO") == "HELLO"
  {
    FilterKeepsAll("HELLO", IsAlpha);
  }

  /** The consequence of the empty transform range: case survives, so
      "Hello" and "HELLO" normalise to two different words even though the
      program's own comment asks for capitalization to be ignored. */
  lemma CaseIsPreserved()
    ensures Normalized("Hello,") == "Hello"
    ensures Normalized("HELLO") == "HELLO"
    ensures Normalized("Hello,") != Normalized("HELLO")
  {
    NormalizedHelloComma();
    NormalizedHELLO();
    assert "Hello"[1] != "HELLO"[1];
  }

  /* ---------------- whitespace tokens ---------------- */

  /** A token as operator>> reads it: non-empty, no whitespace. */
  predicate IsToken(w: string) {
    w != [] && forall i :: 0 <= i < |w| ==> !IsSpace(w[i])
  }

  /** The length of the run of non-whitespace characters `s` starts with. */
  function TokenLength(s: string): (n: nat)
    requires s != [] && !IsSpace(s[0])
    ensures 1 <= n <= |s|
    ensures IsToken(s[..n])
    ensures n == |s| || IsSpace(s[n])
  {
    if |s| == 1 || IsSpace(s[1]) then 1
    else
      var m := TokenLength(s[1..]);
      assert s[..m + 1] == [s[0]] + s[1..][..m];
      1 + m
  }

  /** The tokens `istream_iterator<std::string>` reads from `s`: leading
      whitespace is skipped, then the longest run of non-whitespace
      characters is one token, until the input is exhausted. */
  function Tokens(s: string): (ts: seq<string>)
    ensures forall i :: 0 <= i < |ts| ==> IsToken(ts[i])
    decreases |s|
  {
    if s == [] then []
    else if IsSpace(s[0]) then Tokens(s[1..])
    else
      var n := TokenLength(s);
      [s[..n]] + Tokens(s[n..])
  }

  lemma {:induction false} TokenLengthOfTokenThenSpace(w: string, c: char, t: string)
    requires IsToken(w) && IsSpace(c)
    ensures TokenLength(w + [c] + t) == |w|
  {
    if |w| > 1 {
      assert (w + [c] + t)[1..] == w[1..] + [c] + t;
      TokenLengthOfTokenThenSpace(w[1..], c, t);
    }
  }

  lemma {:induction false} TokenLengthOfToken(w: string)
    requires IsToken(w)
    ensures TokenLength(w) == |w|
  {
    if |w| > 1 {
      TokenLengthOfToken(w[1..]);
    }
  }

  /** A lone token is read as itself. */
  lemma TokensOfToken(w: string)
    requires IsToken(w)
    ensures Tokens(w) == [w]
  {
    TokenLengthOfToken(w);
    assert w[..|w|] == w;
    assert w[|w|..] == [];
  }

  /** A token followed by a whitespace character is read first, then the
      rest. */
  lemma TokensOfTokenThenSpace(w: string, c: char, t: string)
    requires IsToken(w) && IsSpace(c)
    ensures Tokens(w + [c] + t) == [w] + Tokens(t)
  {
    var s := w + [c] + t;
    TokenLengthOfTokenThenSpace(w, c, t);
    assert s[..|w|] == w;
    assert s[|w|..] == [c] + t;
    assert ([c] + t)[1..] == t;
  }

  /** Words written with one whitespace character between neighbours (a
      space, or one word per line) are read back as the same words: the
      tokeniser inverts joining with any whitespace separator. */
  lemma {:induction false} TokensOfJoin(ws: seq<string>, c: char)
    requires IsSpace(c)
    requires forall i :: 0 <= i < |ws| ==> IsToken(ws[i])
    ensures Tokens(Join(ws, [c])) == ws
  {
    if |ws| == 1 {
      TokensOfToken(ws[0]);
    } else if |ws| > 1 {
      TokensOfTokenThenSpace(ws[0], c, Join(ws[1..], [c]));
      TokensOfJoin(ws[1..], c);
      SameHeadAndTail(Tokens(Join(ws, [c])), ws);
    }
  }

  /** Whitespace before the text does not change what is read. */
  lemma {:induction false} TokensSkipLeadingSpace(c: char, s: string)
    requires IsSpace(c)
    ensures Tokens([c] + s) == Tokens(s)
  {
    assert ([c] + s)[1..] == s;
  }

  /* ---------------- std::string's operator< ---------------- */

  /** Lexicographic order on strings: a proper prefix comes first, otherwise
      the first differing character decides. */
  predicate Less(a: string, b: string) {
    if a == [] then b != []
    else if b == [] then false
    else if a[0] != b[0] then a[0] < b[0]
    else Less(a[1..], b[1..])
  }

  lemma {:induction false} LessIrreflexive(a: string)
    ensures !Less(a, a)
  {
    if a != [] {
      LessIrreflexive(a[1..]);
    }
  }

  lemma {:induction false} LessTransitive(a: string, b: string, c: string)
    requires Less(a, b) && Less(b, c)
    ensures Less(a, c)
  {
    if a != [] && b != [] && c != [] && a[0] == b[0] == c[0] {
      LessTransitive(a[1..], b[1..], c[1..]);
    }
  }

  lemma {:induction false} LessTotal(a: string, b: string)
    ensures a == b || Less(a, b) || Less(b, a)
  {
    if a != [] && b != [] && a[0] == b[0] {
      assert a == [a[0]] + a[1..] && b == [b[0]] + b[1..];
      LessTotal(a[1..], b[1..]);
    }
  }

  /** The textbook definition of lexicographic order: `a` is a proper prefix
      of `b`, or at the first position where they differ `a` has the smaller
      character. */
  ghost predicate Lexicographic(a: string, b: string) {
    (|a| < |b| && a == b[..|a|]) ||
    exists k :: 0 <= k < |a| && k < |b| && a[..k] == b[..k] && a[k] < b[k]
  }

  /** Less is std::string's operator<: the lexicographic order. */
  lemma {:induction false} LessIsLexicographic(a: string, b: string)
    ensures Less(a, b) <==> Lexicographic(a, b)
  {
    if a == [] {
      assert b != [] ==> a == b[..0];
    } else if b == [] {
    } else if a[0] != b[0] {
      if Less(a, b) {
        assert a[..0] == b[..0];
      }
      assert forall k :: 0 < k <= |a| ==> a[..k][0] == a[0];
      assert forall k :: 0 < k <= |b| ==> b[..k][0] == b[0];
    } else {
      LessIsLexicographic(a[1..], b[1..]);
      LexicographicTail(a, b);
    }
  }

  /** Lexicographic order skips a common first character. */
  lemma LexicographicTail(a: string, b: string)
    requires a != [] && b != [] && a[0] == b[0]
    ensures Lexicographic(a, b) <==> Lexicographic(a[1..], b[1..])
  {
    PrefixTail(a, b);
    FirstDifferenceTail(a, b);
  }

  lemma PrefixTail(a: string, b: string)
    requires a != [] && b != [] && a[0] == b[0]
    ensures (|a| < |b| && a == b[..|a|]) <==> (|a| - 1 < |b| - 1 && a[1..] == b[1..][..|a| - 1])
  {
    if |a| < |b| && a[1..] == b[1..][..|a| - 1] {
      assert a == [a[0]] + a[1..] && b[..|a|] == [b[0]] + b[1..][..|a| - 1];
    }
  }

  lemma FirstDifferenceTail(a: string, b: string)
    requires a != [] && b != [] && a[0] == b[0]
    ensures (exists k :: 0 <= k < |a| && k < |b| && a[..k] == b[..k] && a[k] < b[k]) <==>
            (exists k :: 0 <= k < |a| - 1 && k < |b| - 1 && a[1..][..k] == b[1..][..k] && a[1..][k] < b[1..][k])
  {
    var a', b' := a[1..], b[1..];
    if k :| 0 <= k < |a| && k < |b| && a[..k] == b[..k] && a[k] < b[k] {
      assert k > 0;
      assert a'[..k - 1] == a[..k][1..] && b'[..k - 1] == b[..k][1..];
      assert a'[k - 1] < b'[k - 1];
    }
    if k :| 0 <= k < |a'| && k < |b'| && a'[..k] == b'[..k] && a'[k] < b'[k] {
      assert a[..k + 1] == [a[0]] + a'[..k] && b[..k + 1] == [b[0]] + b'[..k];
      assert a[k + 1] < b[k + 1];
    }
  }

  lemma StringOrder()
    ensures StrictTotalOrder(Less)
  {
    forall a ensures !Less(a, a) {
      LessIrreflexive(a);
    }
    forall a, b, c | Less(a, b) && Less(b, c) ensures Less(a, c) {
      LessTransitive(a, b, c);
    }
    forall a, b ensures a == b || Less(a, b) || Less(b, a) {
      LessTotal(a, b);
    }
  }

  /* ---------------- exercises 16 and 17 ---------------- */

  /** std::count(characters, '\n'): the reported number of lines is the
      number of line separators, one fewer than the pieces the text splits
      into at '\n' (a last line without a newline is not counted). */
  function LineCount(characters: string): (n: nat)
    ensures n <= |characters|
    ensures n + 1 == |Split(characters, '\n')|
  {
    SplitCount(characters, '\n');
    CountOf(characters, '\n')
  }

  /** characters.size() (CppAlgorithmsExercise/main.cpp:136) counts the
      newlines too: the text is its lines joined by '\n', so its size is the
      total length of the lines plus the number of lines reported. */
  lemma CharacterCount(characters: string)
    ensures Join(Split(characters, '\n'), "\n") == characters
    ensures |characters| == TotalLength(Split(characters, '\n')) + LineCount(characters)
  {
    JoinSplit(characters, '\n');
    JoinLength(Split(characters, '\n'), "\n");
  }
}
