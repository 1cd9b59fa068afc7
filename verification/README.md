# Word squares from a bag of letters

A model, in Dafny, of the core of WordSquareApp. Given a grid size `n`, a
sequence of letters and a dictionary of words grouped by length, the app
looks for `n` dictionary words of length `n`. Written one under another,
they must read the same across and down: row `i`, column `j` equals row `j`,
column `i`. Together they must use no letter more often than the sequence
supplies it.

The model has five modules:

- `Wrappers`: the `Option` and `Result` types. `Optional<List<String>>` becomes
  `Option<seq<string>>`. The two exceptions the solver can raise become
  `Result` failures.
- `LetterPool`: letter counts as a `map<char, int>`. It holds the frequency map
  of a word, the "enough letters" test, and the consumption of a word's letters
  from the pool. `Fits(m, pool)` says the multiset `m` is covered by the pool.
  `Subtracted` states exactly what consuming leaves.
- `WordSquareBuilder`: the backtracking search of `WordSquareBuilder.java`.
  - `Search` models `buildSquare`'s base case and recursion.
  - `TryCandidates` models its `for` loop over the candidates.
  - The three filters are `RequiredPrefix`/`MatchesPrefix`, `HasEnoughLetters`
    and `MaintainsSquareProperty`, which uses `BuildPartialColumn` and
    `CanCompleteToValidWord`.
  - Soundness is part of the functions' contracts: any square found is a word
    square over the candidates that the pool pays for.
  - Completeness is proved as lemmas: whenever such a square exists, the search
    finds one. `BuildSucceedsIff` states both directions together.
- `WordSquareSolver`: `WordSquareSolver.java`.
  - Input validation, letter parsing, dictionary filtering and the call into
    the builder.
  - The dictionary lookup of `DictionaryLoader.getDictionaryForSize`, modelled
    as a map from length to words. A missing length is the
    `DictionaryUnavailable` failure.
- `WordSquareScenarios`: the concrete cases of the unit tests, and the
  counterexample for the finding below.

How the model represents what the Java code does:

- **Candidate order.** The Java code iterates a `HashSet`, so its order is
  unspecified. The model takes the candidates as a `seq<string>` in some
  order, and every member is stated for an arbitrary sequence: no lemma fixes
  the order of the candidates or of the dictionary's words.
- **Exceptions.** `IllegalArgumentException` from `validateInput` becomes
  `Failure(InvalidInput)`. The `RuntimeException` from `getDictionaryForSize`
  becomes `Failure(DictionaryUnavailable)`.
- **Lower-casing.** `validateInput` lower-cases the sequence
  (WordSquareSolver.java:41) and the loader lower-cases every dictionary word
  (DictionaryLoader.java:24), but the lower-cased sequence is never used: the
  letters are counted in their original case. The model follows the code
  (see Findings).

## Model

| member | source | states |
|---|---|---|
| LetterPool.LetterFrequency | src/main/java/org/moyo/WordSquareBuilder.java:168-174 | the keys of the frequency map are exactly the letters of the word, and each value is the number of times that letter occurs |
| LetterPool.HasEnoughLetters | src/main/java/org/moyo/WordSquareBuilder.java:88-101 | true exactly when the pool holds every letter of the word at least as many times as the word uses it |
| LetterPool.ConsumeLetters | src/main/java/org/moyo/WordSquareBuilder.java:152-165 | for a word the pool can pay for, each of the word's letters drops by its count in the word; a letter that reaches zero is removed; other letters are unchanged; positive counts stay positive |
| LetterPool.ConsumeOne | src/main/java/org/moyo/WordSquareBuilder.java:156-161 | one pass of the loop takes exactly one copy of the letter out of a pool that holds it: the entry drops by one, or disappears when it was 1, and every other entry is unchanged |
| LetterPool.SubtractedStep | src/main/java/org/moyo/WordSquareBuilder.java:155-162 | taking one letter off (removing it at count 1, decrementing otherwise) and then subtracting the rest is an exact subtraction of the whole multiset |
| LetterPool.ConsumeLettersExact | src/main/java/org/moyo/WordSquareBuilder.java:152-165 | what is left after consuming a word pays for `m` exactly when the original pool pays for `m` plus the word's letters |
| LetterPool.FitsFrequency | src/main/java/org/moyo/WordSquareBuilder.java:168-174 | a multiset fits the frequency map of a string exactly when it is a sub-multiset of that string's letters |
| LetterPool.LettersOfRow | src/main/java/org/moyo/WordSquareBuilder.java:53-54 | each row's letters are part of the letters of all the rows |
| LetterPool.MissingLetter | src/main/java/org/moyo/WordSquareBuilder.java:95-97 | a word that uses a letter absent from the pool does not fit it |
| WordSquareBuilder.Column | src/main/java/org/moyo/WordSquareBuilder.java:74-76 | character `i` of the collected column is character `col` of row `i`, for each of the first `k` rows |
| WordSquareBuilder.RequiredPrefix | src/main/java/org/moyo/WordSquareBuilder.java:68-78 | the prefix for row `row` has `row` characters; character `c` is character `row` of row `c`, and it is empty at row 0 |
| WordSquareBuilder.MatchesPrefix | src/main/java/org/moyo/WordSquareBuilder.java:83-85 | true exactly when the word is at least as long as the prefix and agrees with it on every position; every word starts with the empty prefix |
| WordSquareBuilder.BuildPartialColumn | src/main/java/org/moyo/WordSquareBuilder.java:123-135 | the partial column has `row + 1` characters: column `col` of the rows placed so far, followed by the candidate's character `col` |
| WordSquareBuilder.CanCompleteToValidWord | src/main/java/org/moyo/WordSquareBuilder.java:140-147 | true exactly when some candidate starts with the prefix |
| WordSquareBuilder.MaintainsSquareProperty | src/main/java/org/moyo/WordSquareBuilder.java:107-118 | true exactly when, for every column after `row`, some candidate starts with that column's partial contents; always true on the last row |
| WordSquareBuilder.ColumnsCompletable | src/main/java/org/moyo/WordSquareBuilder.java:109-115 | the loop from column `col` on: true exactly when every partial column from there up to `size` can be completed by some candidate |
| WordSquareBuilder.Admissible | src/main/java/org/moyo/WordSquareBuilder.java:41-51 | a candidate passes the three filters exactly when it starts with the forced prefix, the pool pays for its letters, and each later column it starts is the start of some candidate |
| WordSquareBuilder.SymmetricExtend | src/main/java/org/moyo/WordSquareBuilder.java:37-43 | a row that starts with the required prefix keeps a symmetric block of rows symmetric |
| WordSquareBuilder.AcceptedRow | src/main/java/org/moyo/WordSquareBuilder.java:53-59 | when the search below an admitted row succeeds, the result extends the square one level up: the row is a candidate, its letters come out of the pool, and symmetry carries up |
| WordSquareBuilder.LettersStep | src/main/java/org/moyo/WordSquareBuilder.java:53-56 | if the later rows fit the pool left after a row's letters are consumed, then that row and the later rows fit the original pool |
| WordSquareBuilder.Search | src/main/java/org/moyo/WordSquareBuilder.java:31-37 | a result has `size` rows and starts with the given rows; its new rows are candidates; their letters fit the pool; it is symmetric whenever the given rows are |
| WordSquareBuilder.TryCandidates | src/main/java/org/moyo/WordSquareBuilder.java:40-64 | the loop over the candidates, with the same guarantees for whatever it returns |
| WordSquareBuilder.Build | src/main/java/org/moyo/WordSquareBuilder.java:22-28 | any square returned is a word square of `size` candidates whose letters the pool pays for; size 0 gives the empty square; an empty candidate set gives nothing |
| WordSquareBuilder.SolutionRowMatchesPrefix | src/main/java/org/moyo/WordSquareBuilder.java:37-43 | in a symmetric square, each row starts with the prefix the rows above it force |
| WordSquareBuilder.SolutionRowKeepsColumns | src/main/java/org/moyo/WordSquareBuilder.java:49-51 | in a symmetric square of candidates, each row passes the partial-column check |
| WordSquareBuilder.SolutionRowFits | src/main/java/org/moyo/WordSquareBuilder.java:45-54 | a row of a square whose letters fit the pool passes the letter check, and the later rows fit what consuming it leaves |
| WordSquareBuilder.SolutionRowAdmissible | src/main/java/org/moyo/WordSquareBuilder.java:40-54 | the next row of any word square that extends the current rows passes all three filters, and the square still extends the rows with it added |
| WordSquareBuilder.TryCandidatesStep | src/main/java/org/moyo/WordSquareBuilder.java:40-62 | the loop either returns the current candidate's successful branch or moves on to the next candidate |
| WordSquareBuilder.SearchComplete | src/main/java/org/moyo/WordSquareBuilder.java:31-65 | if any word square extends the current rows within the pool, the search succeeds |
| WordSquareBuilder.SolutionRowSucceeds | src/main/java/org/moyo/WordSquareBuilder.java:53-59 | trying the next row of such a square passes the filters, and the recursive search after it succeeds |
| WordSquareBuilder.TryCandidatesComplete | src/main/java/org/moyo/WordSquareBuilder.java:40-62 | the loop cannot run past a candidate that is the next row of such a square without succeeding |
| WordSquareBuilder.BuildComplete | src/main/java/org/moyo/WordSquareBuilder.java:22-28 | whenever a word square over the candidates fits the pool, `build` returns a square |
| WordSquareBuilder.BuildSucceedsIff | src/main/java/org/moyo/WordSquareBuilder.java:22-65 | `build` returns a square exactly when some word square over the candidates fits the pool |
| WordSquareSolver.ToLower | src/main/java/org/moyo/WordSquareSolver.java:41 | lower-casing keeps letters letters and leaves no upper-case letter; an upper-case letter maps to the lower-case letter at the same place in the alphabet, and every other character is unchanged |
| WordSquareSolver.LowerString | src/main/java/org/moyo/WordSquareSolver.java:41 | the lower-cased string has the same length and lower-cases each character in place |
| WordSquareSolver.LowerStringIdempotent | src/main/java/org/moyo/WordSquareSolver.java:41 | lower-casing twice is the same as lower-casing once |
| WordSquareSolver.ValidateInput | src/main/java/org/moyo/WordSquareSolver.java:36-47 | succeeds exactly when the sequence is present, non-empty and all letters, and then hands back the sequence unchanged; otherwise it fails with `InvalidInput` |
| WordSquareSolver.Trim | src/main/java/org/moyo/WordSquareSolver.java:52 | the result is the slice of the string left after removing a prefix and a suffix made only of characters at or below the space; it starts and ends above the space; a string with no such character is unchanged |
| WordSquareSolver.TrimStart | src/main/java/org/moyo/WordSquareSolver.java:52 | the first index at or after `i` holding a character above the space (or the end), with only characters at or below the space skipped |
| WordSquareSolver.TrimEnd | src/main/java/org/moyo/WordSquareSolver.java:52 | the end after the last character above the space at or after `st`, with only characters at or below the space cut off |
| WordSquareSolver.RemoveSpaces | src/main/java/org/moyo/WordSquareSolver.java:53 | no space is left, and every other character keeps its count |
| WordSquareSolver.ParseLetterFrequencies | src/main/java/org/moyo/WordSquareSolver.java:49-59 | counts are positive and only non-space characters of the sequence are keys; for an all-letter sequence the keys and counts are exactly the sequence's letters and their counts |
| WordSquareSolver.ParsedCharacters | src/main/java/org/moyo/WordSquareSolver.java:52-53 | the characters counted are a sub-multiset of the sequence with no space, and for an all-letter sequence they are the whole sequence |
| WordSquareSolver.FitsParsed | src/main/java/org/moyo/WordSquareSolver.java:49-59 | for an all-letter sequence, a multiset fits the parsed counts exactly when it is a sub-multiset of the sequence's letters |
| WordSquareSolver.CanFormWord | src/main/java/org/moyo/WordSquareSolver.java:76-88 | true exactly when the available letters cover the word's letters with their multiplicities |
| WordSquareSolver.CanFormWordIsHasEnoughLetters | src/main/java/org/moyo/WordSquareSolver.java:76-88 | the solver's `canFormWord` and the builder's `hasEnoughLetters` agree on every word and pool |
| WordSquareSolver.FilterWords | src/main/java/org/moyo/WordSquareSolver.java:66-70 | a word is kept exactly when it is in the input and can be formed; the result is empty exactly when no input word can be formed, which is the `isEmpty` test at line 26; nothing is added |
| WordSquareSolver.FilterValidWords | src/main/java/org/moyo/WordSquareSolver.java:62-73 | fails with `DictionaryUnavailable` exactly when the dictionary has no entry for the size; otherwise it holds exactly the dictionary words of that size the letters can form |
| WordSquareSolver.BuildSquare | src/main/java/org/moyo/WordSquareSolver.java:91-96 | a non-empty answer is a word square over the valid words within the letters, and the answer is non-empty exactly when such a square exists |
| WordSquareSolver.SolveFromPool | src/main/java/org/moyo/WordSquareSolver.java:23-30 | fails exactly when the size is not in the dictionary; a non-empty answer is a word square of dictionary words of that size that fits the pool |
| WordSquareSolver.SolveWordSquare | src/main/java/org/moyo/WordSquareSolver.java:16-31 | invalid input fails with `InvalidInput`; size at most 0 gives the empty list; an unknown size fails with `DictionaryUnavailable`; otherwise it succeeds, and a non-empty answer is a word square of dictionary words within the sequence's letters, counted as written |
| WordSquareSolver.SolveComplete | src/main/java/org/moyo/WordSquareSolver.java:23-30 | a word square of dictionary words within an all-letter sequence makes the solve from its parsed counts non-empty |
| WordSquareSolver.SolveSucceedsIff | src/main/java/org/moyo/WordSquareSolver.java:16-31 | for valid input and a known size, the answer is non-empty exactly when some word square of dictionary words fits the sequence's letters |
| WordSquareSolver.SolveWordSquareIgnoringCase | src/main/java/org/moyo/WordSquareSolver.java:36-59 | the corrected solve: the same outcomes as `SolveWordSquare`, but a non-empty answer fits the lower-cased sequence's letters |
| WordSquareSolver.IgnoringCaseIsCaseInsensitive | src/main/java/org/moyo/WordSquareSolver.java:41 | the corrected solve gives the same answer for a sequence and its lower-cased form |
| WordSquareSolver.IgnoringCaseAgreesOnLowerCase | src/main/java/org/moyo/WordSquareSolver.java:16-59 | on a sequence that lower-casing leaves unchanged, the corrected solve and the solve as written give the same answer |
| WordSquareScenarios.BuildToOn | src/test/java/org/moyo/WordSquareBuilderTest.java:37-62 | with candidates "to" and "on" and a pool covering their letters, the 2-by-2 build returns exactly ["to", "on"] |
| WordSquareScenarios.BuildToOnExactLetters | src/test/java/org/moyo/WordSquareBuilderTest.java:37-62 | with the pool t:1, o:2, n:1, the build returns ["to", "on"] |
| WordSquareScenarios.OnlyToOn | src/test/java/org/moyo/WordSquareBuilderTest.java:51-61 | the only 2-by-2 word square over "to" and "on" is ["to", "on"] |
| WordSquareScenarios.NoAffordableCandidate | src/test/java/org/moyo/WordSquareBuilderTest.java:294-307 | if the pool cannot pay for any single candidate, the build of a positive size finds nothing |
| WordSquareScenarios.BuildInsufficientLetters | src/test/java/org/moyo/WordSquareBuilderTest.java:64-77 | with candidates drawn from "test", "word" and "square", in any order, and the pool a:1, b:1, the 2-by-2 build finds nothing |
| WordSquareScenarios.BuildThreeByThree | src/test/java/org/moyo/WordSquareBuilderTest.java:222-250 | with any candidates of at least three letters, in any order, that include "cat", "are" and "tea" (as the test's seven do), and the pool c:2, a:3, t:2, r:2, e:3, the 3-by-3 build finds a square |
| WordSquareScenarios.CatAreTea | src/test/java/org/moyo/WordSquareBuilderTest.java:222-250 | cat/are/tea is symmetric, and its letters fit that pool |
| WordSquareScenarios.NoSquareOverAbcDefGhi | src/test/java/org/moyo/WordSquareBuilderTest.java:294-307 | no 3-by-3 word square can be made from a dictionary whose three-letter words are "abc", "def" and "ghi", whatever the letters |
| WordSquareScenarios.SolveAbcDefGhi | src/main/java/org/moyo/WordSquareSolver.java:16-31 | with any well-formed dictionary whose three-letter words are "abc", "def" and "ghi", in any order, every valid sequence yields the empty list |
| WordSquareScenarios.SolveToOn | src/main/java/org/moyo/WordSquareSolver.java:16-31 | with any well-formed dictionary whose two-letter words are "to" and "on", in any order, any all-letter sequence that contains t, o, o and n yields ["to", "on"] |
| WordSquareScenarios.SolveWithoutLowerO | src/main/java/org/moyo/WordSquareSolver.java:49-59 | with any such dictionary, an all-letter sequence with no lower-case 'o' yields the empty list |
| WordSquareScenarios.SolveIsCaseSensitive | src/main/java/org/moyo/WordSquareSolver.java:41 | as written, with any such dictionary, "toon" yields ["to", "on"] but "TOON" yields the empty list |
| WordSquareScenarios.SolveIgnoringCaseAcceptsUpperCase | src/main/java/org/moyo/WordSquareSolver.java:41 | with any such dictionary, the corrected solve gives ["to", "on"] for "TOON" |

## Left out

- Console output: the `println` calls on success and on backtracking are not modelled. `WordSquareApp` (argument handling and printing) is not modelled either.
- Loading the dictionary from a text file is not modelled. The loaded dictionary is a parameter: a map from each length to the words of that length.
- Iteration order of the `HashSet` of candidates is not modelled. The candidates are a sequence in an arbitrary order, and every member is stated for all orders. Which of several squares is returned depends on that order, and no lemma names it.
- `Character.isLetter` and `toLowerCase` are restricted to ASCII letters. Other Unicode letters, and locale-dependent case mapping, are left out.
- Java `int` overflow of the letter counts is not modelled. The counts are unbounded integers, and a count would need more than two billion copies of a letter to wrap.
- WordSquareBuilder.Build: the size is a `nat`, and the candidates must have at least `size` letters. The solver only ever passes dictionary words of exactly the grid size, and the unit test whose 2-by-2 build is given longer words ("test", "word", "square") is covered. The Java builder does not reject shorter candidates, and what it does with them is not modelled. A short candidate that fails `matchesPrefix` (WordSquareBuilder.java:41) or `hasEnoughLetters` (line 45) is skipped without any `charAt`. One that reaches `maintainsSquareProperty` or a later `getRequiredPrefix` can throw `StringIndexOutOfBoundsException`. On the last row the column loop at line 109 does not run, so a row of length `size - 1` is accepted: size 2 with "to" then "o" and pool t:1, o:2 returns ["to", "o"], which is not a square.
- WordSquareSolver.SolveWordSquare: the dictionary must be well formed, meaning every word stored under a length has that length. This is what the loader builds.
- Idempotence of `build` and `solveWordSquare` is not stated: every function here is deterministic, so repeating a call gives the same answer.
- The solver's 4-, 5- and 7-letter scenarios read a word list file. That file is not part of this model. The "ab"/"ba" scenario of the builder is covered by `BuildSucceedsIff` rather than by a lemma of its own.
- WordSquareScenarios.NoSquareOverAbcDefGhi: it is stated for 3-by-3 squares under the solver. The builder test with "abc", "def", "ghi" asks for a 2-by-2 square from x, y and z, and `NoAffordableCandidate` covers that test.

## Findings

| source | as written | input that shows it | evidently intended | confidence | as-written member | corrected member |
|---|---|---|---|---|---|---|
| src/main/java/org/moyo/WordSquareSolver.java:41 | `validateInput` lower-cases only its own local copy of the sequence. `parseLetterFrequencies` (lines 49-59) then counts the original characters, so upper-case letters never match the lower-case dictionary words | size 2, a dictionary of size 2 with "to" and "on", sequence "TOON": the result is the empty list | the sequence's letters are counted after lower-casing, so "TOON" yields ["to", "on"] as "toon" does | not executed | WordSquareScenarios.SolveIsCaseSensitive | WordSquareSolver.SolveWordSquareIgnoringCase |

`WordSquareSolver.SolveWordSquare` models the code as written. `WordSquareSolver.IgnoringCaseIsCaseInsensitive` proves that the corrected solve does not depend on case. `WordSquareScenarios.SolveIgnoringCaseAcceptsUpperCase` shows that the corrected solve returns ["to", "on"] for "TOON".
