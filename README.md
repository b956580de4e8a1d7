# CppAlgorithmsExercise in Dafny

CppAlgorithmsExercise is one C++ `main()` that works through nineteen small
exercises with the standard algorithms. This project models its
deterministic core and proves what each exercise computes:

- **Integer exercises on a given vector.** These are the first maximum and
  its index, the sum, the odd count, and a sorted copy with the number of
  elements above 455 (found with `upper_bound`). Then come the copy of the
  odd values, the descending sort, the in-place `remove_if` + `erase` of the
  odd values, and the comma-separated line written to `vec.txt`.
- **The factorial of 6**, computed as `iota` followed by `accumulate` with
  `multiplies`.
- **The word exercises.**
  - `normalize_word` keeps the letters of a token.
  - Tokens are read from a file as whitespace-separated strings.
  - The word set is built by normalising every token, `sort`, then
    `unique` + `erase`.
  - The total word count, the newline count and the character count of
    the file.
  - The `set_intersection` of two word sets.

The modules follow the program's structure:

- `Orders`: strict total orders and sortedness.
- `Sequences`: the specification functions for copy_if, remove_if,
  count_if, count, unique, join and split, with their lemmas.
- `Algorithms`: the in-place algorithms on arrays (`sort`, `unique`,
  `remove_if`) and the appending `copy_if`, each proved against a
  Sequences function.
- `Text`: character classes, `normalize_word`, the tokeniser,
  `std::string`'s `operator<`, and the line and character counts.
- `WordSets`: the word-set builder and intersection.
- `Numbers`: the integer exercises and the factorial.

The model follows the code where the code and its own comments disagree.
`normalize_word` runs its lowercasing `transform` over the empty range
`[begin(word), begin(word))`. So the normalised word keeps its case, while
the comment at line 100 asks for capitalization to be ignored.
`Text.CaseIsPreserved` proves that "Hello," and "HELLO" give two different
words.

Characters stand for the characters the text-mode file streams deliver
(on some platforms a "\r\n" in the file arrives as "\n", so exercise 17's
`characters.size()` counts what the stream delivers, not the file's bytes). `isalpha`, `isspace` and
`tolower` are those of the "C" locale. Dafny integers are unbounded.
`Numbers.RunningTotalsFit` shows that every running total of the program's
10 values in 0..1000 lies in 0..10000, so the `int` sum of exercise 5
cannot overflow, and `Numbers.NumberExercises` requires its vector to have
that shape. Likewise 6! = 720.

## Model

| member | source | states |
|---|---|---|
| Text.NormalizeWord | CppAlgorithmsExercise/main.cpp:93-98 | copy_if of the letters into an empty string, then the transform over an empty range; the result is exactly the letters of the token, in order, case unchanged |
| Text.IsAlpha | CppAlgorithmsExercise/main.cpp:95 | isalpha in the "C" locale, the copy_if condition: exactly the 52 ASCII letters A-Z and a-z |
| Text.Normalized | CppAlgorithmsExercise/main.cpp:93-98 | what normalize_word returns, as a function of the token: the token's letters in their order, case kept (the copy_if result) |
| Text.TransformToLower | CppAlgorithmsExercise/main.cpp:96 | transform with tolower lowercases exactly the positions in [first, last) and leaves every other character as it was |
| Text.ToLower | CppAlgorithmsExercise/main.cpp:96 | tolower maps each uppercase letter to the lowercase letter at the same place in the alphabet, keeps letters letters, and leaves every other character unchanged |
| Text.NormalizedFacts | CppAlgorithmsExercise/main.cpp:93-98 | the normalised word is a subsequence of the token, made of letters only, as long as the token's letter count and no longer than the token; a letterless token gives ""; normalising twice changes nothing |
| Text.NormalizedLettersThenMark | CppAlgorithmsExercise/main.cpp:93-98 | letters followed by one non-letter normalise to those letters |
| Text.NormalizedIsTheLetterSubsequence | CppAlgorithmsExercise/main.cpp:95 | any letters-only subsequence with as many characters as the token has letters is the normalised word (the result is unique) |
| Text.CaseIsPreserved | CppAlgorithmsExercise/main.cpp:96-100 | "Hello," normalises to "Hello" and "HELLO" to "HELLO", two different words, although capitalization was meant to be ignored |
| Text.TokenLength | CppAlgorithmsExercise/main.cpp:103-105 | a token read by operator>> is the longest non-empty run of non-whitespace characters: it ends at the end of input or before a whitespace character |
| Text.Tokens | CppAlgorithmsExercise/main.cpp:103-105 | every token read from the file is non-empty and free of whitespace |
| Text.TokensOfTokenThenSpace | CppAlgorithmsExercise/main.cpp:103-105 | a token followed by any whitespace character is read as that token, then the tokens of the rest |
| Text.TokensOfJoin | CppAlgorithmsExercise/main.cpp:103-105 | words written with one whitespace character between neighbours (a space, a newline, ...) are read back as exactly those words |
| Text.TokensSkipLeadingSpace | CppAlgorithmsExercise/main.cpp:103-105 | whitespace before the text does not change the tokens read |
| Text.IsSpace | CppAlgorithmsExercise/main.cpp:103-105 | the whitespace operator>> skips and stops at, in the "C" locale: space, \t, \n, \v, \f and \r |
| Text.Less | CppAlgorithmsExercise/main.cpp:111 | std::string's operator<, the order std::sort uses for words: the empty string is below every other, otherwise the first characters decide and equal first characters pass to the rests |
| Text.LessIsLexicographic | CppAlgorithmsExercise/main.cpp:111 | Less holds exactly when the first string is a proper prefix of the second or, at the first position where they differ, has the smaller character |
| Text.StringOrder | CppAlgorithmsExercise/main.cpp:111 | std::string's operator< (lexicographic order) is a strict total order, as std::sort requires |
| Text.LineCount | CppAlgorithmsExercise/main.cpp:132 | count of '\n' is at most the length of the text and one fewer than the pieces the text splits into at '\n' |
| Text.CharacterCount | CppAlgorithmsExercise/main.cpp:130-136 | the text is its lines joined by '\n', and characters.size() is the lines' total length plus the newline count |
| Algorithms.SortInPlace | CppAlgorithmsExercise/main.cpp:56 | std::sort leaves the array sorted by the given strict total order and a permutation of its old contents |
| Algorithms.InsertLast | CppAlgorithmsExercise/main.cpp:56 | one insertion step extends the sorted prefix by one element, permutes the array and leaves the rest untouched |
| Algorithms.Unique | CppAlgorithmsExercise/main.cpp:114-115 | unique + erase keeps the prefix that collapses every run of equal neighbours, keeping the first of each run |
| Algorithms.RemoveIf | CppAlgorithmsExercise/main.cpp:79-80 | remove_if + erase keeps, in order, exactly the elements that do not satisfy the predicate |
| Algorithms.CopyIf | CppAlgorithmsExercise/main.cpp:64 | copy_if into a back_inserter appends exactly the elements that satisfy the predicate, in order |
| Sequences.Filter | CppAlgorithmsExercise/main.cpp:64 | the kept elements all satisfy the predicate and are no more than the input |
| Sequences.FilterMembers | CppAlgorithmsExercise/main.cpp:64 | the kept elements are exactly the input's members that satisfy the predicate |
| Sequences.Removed | CppAlgorithmsExercise/main.cpp:79 | the kept elements all fail the predicate and are no more than the input |
| Sequences.RemovedMembers | CppAlgorithmsExercise/main.cpp:79-80 | the kept elements are exactly the input's members that fail the predicate |
| Sequences.CountIf | CppAlgorithmsExercise/main.cpp:43 | count_if: the number of elements satisfying the predicate, never more than the elements there are; exercise 6 is CountIf(vec, IsOdd) |
| Sequences.CountIfConcat | CppAlgorithmsExercise/main.cpp:43 | count_if over two ranges one after the other is the sum of their counts |
| Sequences.CountOf | CppAlgorithmsExercise/main.cpp:132 | std::count of a value is its multiplicity in the sequence |
| Sequences.CountIfPermutation | CppAlgorithmsExercise/main.cpp:43 | count_if does not depend on the order of the elements |
| Sequences.FilterLength | CppAlgorithmsExercise/main.cpp:43-64 | copy_if produces as many elements as count_if counts |
| Sequences.FilterIdempotent | CppAlgorithmsExercise/main.cpp:95 | filtering twice with the same predicate changes nothing more |
| Sequences.FilterRemovedPartition | CppAlgorithmsExercise/main.cpp:64-80 | the copied and the remaining elements together make up the input, by length and as a multiset |
| Sequences.FilterIsSubsequence | CppAlgorithmsExercise/main.cpp:64 | copy_if keeps the relative order of the input |
| Sequences.RemovedIsSubsequence | CppAlgorithmsExercise/main.cpp:79-80 | remove_if keeps the relative order of the input |
| Sequences.FilterCharacterised | CppAlgorithmsExercise/main.cpp:64 | a subsequence whose elements all satisfy the predicate and that is as long as count_if is the copy_if result |
| Sequences.Dedup | CppAlgorithmsExercise/main.cpp:114 | unique's result is no longer than the input, ends with the input's last element, and has no two equal neighbours |
| Sequences.DedupMembers | CppAlgorithmsExercise/main.cpp:114 | unique drops only repeats: its result has exactly the input's members |
| Sequences.DedupCons | CppAlgorithmsExercise/main.cpp:114 | seen from the front, unique keeps the first element and continues on the rest, dropping the first element exactly when it repeats the rest's first |
| Sequences.DedupIsSubsequence | CppAlgorithmsExercise/main.cpp:114 | unique keeps the relative order of the elements it keeps |
| Sequences.DedupLength | CppAlgorithmsExercise/main.cpp:114 | unique keeps exactly one element per run of equal neighbours, its length being the number of runs counted from the front |
| Sequences.SubsequenceRuns | CppAlgorithmsExercise/main.cpp:114 | a subsequence without equal neighbours has at most one element per run |
| Sequences.DedupCharacterised | CppAlgorithmsExercise/main.cpp:114 | any subsequence of the input without equal neighbours and with one element per run is unique's result, so the contract pins the result |
| Sequences.DedupOfSorted | CppAlgorithmsExercise/main.cpp:111-115 | unique on a sorted sequence gives a strictly ascending one |
| Sequences.SplitJoin | CppAlgorithmsExercise/main.cpp:86-90 | splitting a joined line at the separator gives back the separator-free pieces |
| Sequences.JoinSplit | CppAlgorithmsExercise/main.cpp:130-132 | joining the pieces of a split text with the separator gives back the text, and no piece holds the separator |
| Sequences.JoinSeparatorCount | CppAlgorithmsExercise/main.cpp:86-90 | n >= 1 separator-free pieces joined hold exactly n - 1 separators |
| Sequences.JoinLength | CppAlgorithmsExercise/main.cpp:136 | a joined text holds the pieces' characters plus one separator between neighbours |
| Orders.IntGreater | CppAlgorithmsExercise/main.cpp:69 | the comparator `[](int l, int r) { return r < l; }`: l goes before r exactly when l is greater |
| Orders.IntOrders | CppAlgorithmsExercise/main.cpp:56-69 | both < (std::sort's default at line 56) and the comparator r < l (line 69) are strict total orders, as std::sort requires |
| Orders.SortedUnique | CppAlgorithmsExercise/main.cpp:56-69 | two sequences sorted by the same strict total order and holding the same elements are equal, so every sort gives the same result |
| Orders.AscendingUnique | CppAlgorithmsExercise/main.cpp:111-115 | two strictly ascending sequences with the same members are equal |
| WordSets.BuildWordSet | CppAlgorithmsExercise/main.cpp:107-115 | normalise, sort, unique + erase: the result is strictly ascending, holds exactly the distinct normalised tokens and is no longer than the token list |
| WordSets.DistinctWords | CppAlgorithmsExercise/main.cpp:103-121 | exercises 14 and 15 on a file's contents: the word set of its tokens, and a total equal to the number of tokens and at least the word set's size |
| WordSets.EmptyFileHasNoWords | CppAlgorithmsExercise/main.cpp:100-122 | for an empty file the word set is empty and the total is 0 |
| WordSets.WordSetUnique | CppAlgorithmsExercise/main.cpp:110-115 | a word set is determined by its members, so the built vector is the ascending list of the distinct normalised tokens |
| WordSets.LetterlessTokenGivesEmptyWord | CppAlgorithmsExercise/main.cpp:110 | a token without letters puts the empty word into the set |
| WordSets.Intersection | CppAlgorithmsExercise/main.cpp:168 | set_intersection of two sorted ranges is sorted and holds each element as often as in both inputs (multiset intersection), and is strictly ascending when the first input is |
| WordSets.IntersectionOfWordSets | CppAlgorithmsExercise/main.cpp:168 | the intersection of two word sets is a word set holding exactly the words present in both, is empty if either is empty, and does not depend on the order of the arguments |
| WordSets.CommonWords | CppAlgorithmsExercise/main.cpp:145-168 | exercise 18: the words common to two files form a word set holding exactly the normalised words of both |
| WordSets.HelloWorldWordSet | CppAlgorithmsExercise/main.cpp:107-115 | the tokens "Hello,", "world!", "HELLO" build the word set HELLO, Hello, world |
| WordSets.CatDogFishIntersection | CppAlgorithmsExercise/main.cpp:168 | cat, dog, fish intersected with dog, fish, zebra is dog, fish |
| Numbers.IsOdd | CppAlgorithmsExercise/main.cpp:43 | the condition of the lambda `x % 2` at lines 43, 64 and 79: x is odd |
| Numbers.TruncatedRemainder | CppAlgorithmsExercise/main.cpp:43 | C++'s `%` on int: the remainder is smaller than the divisor in size, has the sign of the dividend and completes the quotient rounded toward zero |
| Numbers.IsOddIsTruncatedTest | CppAlgorithmsExercise/main.cpp:43 | the Euclidean test IsOdd(x) is true exactly where C++'s truncating `x % 2` is non-zero, negative x included |
| Numbers.MaxElementIndex | CppAlgorithmsExercise/main.cpp:30-35 | max_element and distance: an index at or above every element and strictly above all earlier ones, and the end exactly when the vector is empty |
| Numbers.FirstMaximumUnique | CppAlgorithmsExercise/main.cpp:30-35 | that index is the only position of the first maximum |
| Numbers.Accumulate | CppAlgorithmsExercise/main.cpp:39 | std::accumulate (here and with multiplies at line 174) is a left fold: op(init, s[0]) is formed first and the rest is folded from it |
| Numbers.AccumulateSnoc | CppAlgorithmsExercise/main.cpp:39 | folding one more element applies op to the fold so far and that element, last, so the operands associate to the left |
| Numbers.AccumulateSum | CppAlgorithmsExercise/main.cpp:39 | accumulate with + from init is init plus the sum of the elements |
| Numbers.SumBounds | CppAlgorithmsExercise/main.cpp:19-39 | values in 0..1000 have a sum between 0 and 1000 times their number |
| Numbers.RunningTotalsFit | CppAlgorithmsExercise/main.cpp:19-24 | ten values in 0..1000 have every running total between 0 and 10000, within a 32-bit int |
| Numbers.UpperBound | CppAlgorithmsExercise/main.cpp:57 | upper_bound on a sorted range: every element before the result is at most the value, every element from it on is greater |
| Numbers.CountIfNone | CppAlgorithmsExercise/main.cpp:43 | count_if is 0 when no element satisfies the predicate |
| Numbers.CountIfAll | CppAlgorithmsExercise/main.cpp:43 | count_if is the length when every element satisfies it |
| Numbers.CountIfAfter | CppAlgorithmsExercise/main.cpp:57-58 | when the elements failing the test all precede those passing it, count_if is the length of the passing part |
| Numbers.UpperBoundTail | CppAlgorithmsExercise/main.cpp:57-58 | on a sorted vector, the distance from upper_bound(455) to the end is the number of elements above 455 |
| Numbers.CountAboveThreshold | CppAlgorithmsExercise/main.cpp:54-58 | the sorted copy is a sorted permutation of the vector, split at the first element above 455, and the tail length is the number of the original elements above 455 |
| Numbers.DigitsRoundTrip | CppAlgorithmsExercise/main.cpp:87-90 | the decimal digits an int is written with read back to the number |
| Numbers.Decimal | CppAlgorithmsExercise/main.cpp:87-90 | operator<< on an int writes an optional minus sign and then the digits, never a comma, so the comma separators stay unambiguous |
| Numbers.DecimalRoundTrip | CppAlgorithmsExercise/main.cpp:87-90 | what operator<< writes for any int, negative ones included, reads back to that int |
| Numbers.CsvLine | CppAlgorithmsExercise/main.cpp:86-90 | the line of exercise 13: the elements' decimal forms joined by ",", characterised by CsvLineFacts |
| Numbers.WriteVector | CppAlgorithmsExercise/main.cpp:85-91 | the file receives the elements joined by "," with no trailing comma when it opened and the vector is non-empty, and nothing otherwise |
| Numbers.CsvLineFacts | CppAlgorithmsExercise/main.cpp:86-90 | the line is empty exactly for the empty vector, holds n - 1 commas for n >= 1 elements, and splits at its commas back into the elements' decimal forms |
| Numbers.EvensWritten | CppAlgorithmsExercise/main.cpp:86-90 | 8, 6, 4, 2, 0 are written as "8,6,4,2,0" |
| Numbers.Iota | CppAlgorithmsExercise/main.cpp:173 | iota fills every position with first plus its index |
| Numbers.ProductOfIota | CppAlgorithmsExercise/main.cpp:173-174 | accumulate with multiplies from 1 over 1, 2, ..., n is n! |
| Numbers.FactorialOfSix | CppAlgorithmsExercise/main.cpp:172-174 | exercise 19 computes 6! = 720 |
| Numbers.DescendingEvens | CppAlgorithmsExercise/main.cpp:69-80 | the descending sort is a permutation sorted by "r < l", and remove_if + erase leaves its even elements in order |
| Numbers.RemoveOddFacts | CppAlgorithmsExercise/main.cpp:79-80 | what remains is exactly the even elements, in their relative order, a subsequence of the vector, as many as the vector minus its odd count, and with the odd ones the whole vector |
| Numbers.NumberExercises | CppAlgorithmsExercise/main.cpp:19-91 | exercises 3-13 chained on ten values in 0..1000: first maximum and index, a sum between 0 and 10000 whose running totals fit in a 32-bit int, odd count, sorted copy and count above 455, odd copy, descending sort, evens, file line, each tied to its specification |

## Left out

- The random fill of the vector (lines 17-24) is nondeterministic. The vector is an input of `Numbers.NumberExercises` instead, required to hold the 10 values in 0..1000 that the fill draws.
- Printing to the console (`print` at lines 9-14, and every `std::cout`) is output only.
- Exercise 7 (lines 46-51) is left out. It builds a vector of `double`s divided by the maximum, which is floating point and divides by zero when every element is 0.
- Numbers.NumberExercises: the `std::shuffle` of the interior elements (line 74) is random, so the model does not perform it. The evens are therefore taken from the descending vector. The program's file line holds the same numbers, but in the shuffled order.
- Opening files and checking that they opened (lines 85, 101-102, 125-127, 140-143) is I/O. File contents are input strings. For `vec.txt`, whether the file opened is a boolean input of `Numbers.WriteVector`.
- Locale-dependent character classes are not modelled. So is the undefined behaviour of `isalpha` and `tolower` on negative `char` values. The characters the stream delivers are classified as in the "C" locale.
- Text-mode newline translation by `std::ifstream` (lines 101, 125, 140-141) is platform I/O. The model works on the characters after it.
- Algorithms.SortInPlace: written as an insertion sort. The contract states what `std::sort` promises (sorted, a permutation) and nothing about its complexity. Because a total order has only one sorted permutation (`Orders.SortedUnique`), the strategy is not observable.
- Numbers.DescendingEvens: models line 69 and lines 79-80 only; the shuffle at line 74 between them is left out, as for `Numbers.NumberExercises`.
- Algorithms.Unique, Algorithms.RemoveIf: the elements left behind after the returned position are unspecified in C++. The model says nothing about them, and the program erases them.
