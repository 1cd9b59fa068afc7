/**
 * WordSquareSolver.java: validates the letter sequence, turns it into a
 * letter pool, keeps the dictionary words of the requested length that the
 * whole pool can pay for, runs the builder over them and unwraps its answer.
 *
 * The dictionary (DictionaryLoader.java) is a map from word length to the
 * words of that length; reading it from a file is not part of this model.
 * Exceptions become `Failure` results.
 */
module WordSquareSolver {
  import opened Wrappers
  import opened LetterPool
  import opened WordSquareBuilder

  /** `IllegalArgumentException` from validation, and the `RuntimeException`
      `getDictionaryForSize` throws when it has no words of the length. */
  datatype SolveError = InvalidInput | DictionaryUnavailable

  /** Word length -> the words of that length, in iteration order. */
  type Dictionary = map<int, seq<string>>

  /** What the loader guarantees: the words filed under n have length n. */
  predicate WellFormedDictionary(dict: Dictionary)
  {
    forall n, w :: n in dict && w in dict[n] ==> |w| == n
  }

  /** `Character.isLetter`, restricted to ASCII. */
  predicate IsLetter(c: char)
  {
    'a' <= c <= 'z' || 'A' <= c <= 'Z'
  }

  predicate AllLetters(s: string)
  {
    forall i :: 0 <= i < |s| ==> IsLetter(s[i])
  }

  /** `Character.toLowerCase`, restricted to ASCII. */
  function ToLower(c: char): (r: char)
    ensures IsLetter(r) <==> IsLetter(c)
    ensures !('A' <= r <= 'Z')
    ensures 'A' <= c <= 'Z' ==> 'a' <= r <= 'z' && r as int - 'a' as int == c as int - 'A' as int
    ensures !('A' <= c <= 'Z') ==> r == c
  {
    if 'A' <= c <= 'Z' then (c as int - 'A' as int + 'a' as int) as char else c
  }

  /** `String.toLowerCase`, character by character. */
  function LowerString(s: string): (r: string)
    ensures |r| == |s|
    ensures forall i :: 0 <= i < |s| ==> r[i] == ToLower(s[i])
  {
    seq(|s|, i requires 0 <= i < |s| => ToLower(s[i]))
  }

  /** Lower-casing twice is lower-casing once. */
  lemma LowerStringIdempotent(s: string)
    ensures LowerString(LowerString(s)) == LowerString(s)
  {
  }

  /** The sequence is present, non-empty and made of letters only. */
  predicate ValidSequence(sequence: Option<string>)
  {
    sequence.Some? && |sequence.value| > 0 && AllLetters(sequence.value)
  }

  /** `validateInput`: null or empty fails; otherwise the lower-cased copy
      must be all letters. The lower-cased copy only rebinds a local, so the
      sequence that goes on is the original one. */
  function ValidateInput(sequence: Option<string>): (r: Result<string, SolveError>)
    ensures r.Success? <==> ValidSequence(sequence)
    ensures r.Success? ==> r.value == sequence.value
    ensures r.Failure? ==> r.error == InvalidInput
  {
    if sequence.None? || |sequence.value| == 0 then Failure(InvalidInput)
    else
      var lowered := LowerString(sequence.value);
      if exists i :: 0 <= i < |lowered| && !IsLetter(lowered[i]) then Failure(InvalidInput)
      else Success(sequence.value)
  }

  /** `s[a..b]` is `s` without a prefix and a suffix made only of characters
      at or below the space. */
  predicate BlankEnds(s: string, a: int, b: int)
  {
    && 0 <= a <= b <= |s|
    && (forall k :: 0 <= k < a ==> s[k] <= ' ')
    && (forall k :: b <= k < |s| ==> s[k] <= ' ')
  }

  /** Java's `String.trim`: drop the characters at or below the space from
      both ends. The result is the slice of `s` between a prefix and a suffix
      of such characters, it starts and ends above the space, and a string
      with no such character is unchanged. */
  function Trim(s: string): (r: string)
    ensures exists a, b :: BlankEnds(s, a, b) && r == s[a..b]
    ensures |r| > 0 ==> r[0] > ' ' && r[|r| - 1] > ' '
    ensures multiset(r) <= multiset(s)
    ensures (forall i :: 0 <= i < |s| ==> s[i] > ' ') ==> r == s
  {
    var start := TrimStart(s, 0);
    var end := TrimEnd(s, start, |s|);
    assert BlankEnds(s, start, end);
    SliceLetters(s, start, end);
    s[start..end]
  }

  /** A slice holds some of the characters of the whole string. */
  lemma SliceLetters(s: string, a: nat, b: nat)
    requires a <= b <= |s|
    ensures multiset(s[a..b]) <= multiset(s)
  {
    assert s == s[..a] + s[a..b] + s[b..];
  }

  /** The first index at or after `i` whose character is above the space. */
  function TrimStart(s: string, i: nat): (st: nat)
    requires i <= |s|
    ensures i <= st <= |s|
    ensures forall k :: i <= k < st ==> s[k] <= ' '
    ensures st < |s| ==> s[st] > ' '
    decreases |s| - i
  {
    if i < |s| && s[i] <= ' ' then TrimStart(s, i + 1) else i
  }

  /** The end, at most `len`, after the last character above the space that
      is at or after `st`. */
  function TrimEnd(s: string, st: nat, len: nat): (end: nat)
    requires st <= len <= |s|
    ensures st <= end <= len
    ensures forall k :: end <= k < len ==> s[k] <= ' '
    ensures st < end ==> s[end - 1] > ' '
  {
    if st < len && s[len - 1] <= ' ' then TrimEnd(s, st, len - 1) else len
  }

  /** The characters of `s` other than the space, in order. */
  function RemoveSpaces(s: string): (r: string)
    ensures ' ' !in multiset(r)
    ensures forall c :: c != ' ' ==> multiset(r)[c] == multiset(s)[c]
  {
    if s == [] then []
    else
      assert s == [s[0]] + s[1..];
      (if s[0] == ' ' then [] else [s[0]]) + RemoveSpaces(s[1..])
  }

  /** `parseLetterFrequencies`: count the characters of the trimmed sequence
      other than the space. Every stored count is at least 1; every key is a
      character of the sequence; for a sequence of letters the counts are
      exactly its character counts, in the original case. */
  function ParseLetterFrequencies(s: string): (r: Pool)
    ensures Positive(r)
    ensures forall c :: c in r ==> c in multiset(s) && c != ' '
    ensures AllLetters(s) ==> forall c :: (c in r <==> c in multiset(s))
    ensures AllLetters(s) ==> forall c :: c in r ==> r[c] == multiset(s)[c]
  {
    ParsedCharacters(s);
    LetterFrequency(RemoveSpaces(Trim(s)))
  }

  /** The characters parsing counts come from the sequence, and are all of
      them when the sequence is made of letters. */
  lemma ParsedCharacters(s: string)
    ensures multiset(RemoveSpaces(Trim(s))) <= multiset(s)
    ensures ' ' !in multiset(RemoveSpaces(Trim(s)))
    ensures AllLetters(s) ==> multiset(RemoveSpaces(Trim(s))) == multiset(s)
  {
    var trimmed := Trim(s);
    var letters := RemoveSpaces(trimmed);
    forall c ensures multiset(letters)[c] <= multiset(trimmed)[c] {
      if c == ' ' {
        assert c !in multiset(letters);
      }
    }
    if AllLetters(s) {
      assert ' ' !in s;
      assert trimmed == s;
      forall c ensures multiset(letters)[c] == multiset(s)[c] {
        if c == ' ' {
          assert c !in multiset(letters) && c !in multiset(s);
        }
      }
    }
  }

  /** For a sequence of letters, a letter multiset fits the parsed pool
      exactly when it is a sub-multiset of the sequence. */
  lemma FitsParsed(m: multiset<char>, s: string)
    requires AllLetters(s)
    ensures Fits(m, ParseLetterFrequencies(s)) <==> m <= multiset(s)
  {
    var pool := ParseLetterFrequencies(s);
    if Fits(m, pool) {
      forall c ensures m[c] <= multiset(s)[c] {
        if c in m {
          assert c in pool;
        }
      }
    }
  }

  /** `canFormWord`: every entry of the word's frequency map is a key of the
      pool with at least that count. */
  function CanFormWord(word: string, pool: Pool): (r: bool)
    ensures r <==> Fits(multiset(word), pool)
  {
    var needed := LetterFrequency(word);
    forall c | c in needed :: c in pool && pool[c] >= needed[c]
  }

  /** The solver's `canFormWord` and the builder's `hasEnoughLetters` are
      the same test. */
  lemma CanFormWordIsHasEnoughLetters(word: string, pool: Pool)
    ensures CanFormWord(word, pool) == HasEnoughLetters(word, pool)
  {
  }

  /** The loop of `filterValidWords`: the words, in order, that the pool can
      pay for. */
  function FilterWords(words: seq<string>, pool: Pool): (r: seq<string>)
    ensures forall w :: w in r <==> w in words && CanFormWord(w, pool)
    ensures r == [] <==> forall w :: w in words ==> !CanFormWord(w, pool)
    ensures |r| <= |words|
  {
    if words == [] then []
    else
      (if CanFormWord(words[0], pool) then [words[0]] else []) + FilterWords(words[1..], pool)
  }

  /** `filterValidWords`: the dictionary's words of length `size` that the
      whole pool can pay for, or the dictionary's failure when it has no
      entry for that length. */
  function FilterValidWords(dict: Dictionary, size: int, pool: Pool): (r: Result<seq<string>, SolveError>)
    ensures r.Failure? <==> size !in dict
    ensures r.Failure? ==> r.error == DictionaryUnavailable
    ensures r.Success? ==> forall w :: w in r.value <==> w in dict[size] && CanFormWord(w, pool)
  {
    if size !in dict then Failure(DictionaryUnavailable)
    else Success(FilterWords(dict[size], pool))
  }

  /** `buildSquare`: run the builder and unwrap its answer, the empty list
      standing for "no square". A non-empty answer is a word square over the
      candidates within the pool, and one is returned exactly when one
      exists. */
  function BuildSquare(size: nat, valid: seq<string>, pool: Pool): (r: seq<string>)
    requires size > 0 && LongEnough(valid, size)
    ensures r != [] ==> IsSolution(size, valid, pool, r)
    ensures r != [] <==> exists s :: IsSolution(size, valid, pool, s)
  {
    BuildSucceedsIff(size, valid, pool);
    Build(size, valid, pool).GetOr([])
  }

  /** `s` is a word square of `size` rows over the dictionary's words of that
      length whose letters are drawn from `budget`. */
  predicate IsWordSquareOf(dict: Dictionary, size: int, budget: multiset<char>, s: seq<string>)
  {
    && size >= 0 && size in dict
    && |s| == size
    && (forall i :: 0 <= i < size ==> s[i] in dict[size])
    && IsSymmetric(s, size)
    && LettersOf(s) <= budget
  }

  /** Steps after validation and the size check, for a given pool. */
  function SolveFromPool(dict: Dictionary, size: int, pool: Pool): (r: Result<seq<string>, SolveError>)
    requires WellFormedDictionary(dict) && size > 0
    ensures r.Failure? <==> size !in dict
    ensures r.Failure? ==> r.error == DictionaryUnavailable
    ensures r.Success? && r.value != [] ==> IsSolution(size, r.value, pool, r.value)
    ensures r.Success? && r.value != [] ==> forall i :: 0 <= i < size ==> r.value[i] in dict[size]
  {
    match FilterValidWords(dict, size, pool)
    case Failure(e) => Failure(e)
    case Success(valid) =>
      if valid == [] then Success([])
      else
        assert LongEnough(valid, size) by {
          forall i | 0 <= i < |valid| ensures size <= |valid[i]| {
            assert valid[i] in valid;
          }
        }
        var s := BuildSquare(size, valid, pool);
        Success(s)
  }

  /** `solveWordSquare`. */
  function SolveWordSquare(dict: Dictionary, size: int, sequence: Option<string>)
    : (r: Result<seq<string>, SolveError>)
    requires WellFormedDictionary(dict)
    ensures !ValidSequence(sequence) ==> r == Failure(InvalidInput)
    ensures ValidSequence(sequence) && size <= 0 ==> r == Success([])
    ensures ValidSequence(sequence) && size > 0 && size !in dict ==> r == Failure(DictionaryUnavailable)
    ensures ValidSequence(sequence) && size > 0 && size in dict ==> r.Success?
    ensures r.Success? && r.value != [] ==> IsWordSquareOf(dict, size, multiset(sequence.value), r.value)
  {
    match ValidateInput(sequence)
    case Failure(e) => Failure(e)
    case Success(s) =>
      if size <= 0 then Success([])
      else
        var r := SolveFromPool(dict, size, ParseLetterFrequencies(s));
        if r.Success? && r.value != [] then
          FitsParsed(LettersOf(r.value), s);
          r
        else r
  }

  /** `solveWordSquare` misses no square: for a valid sequence and a length
      the dictionary knows, the answer is non-empty exactly when some word
      square over the dictionary's words fits the sequence's letters. */
  lemma SolveSucceedsIff(dict: Dictionary, size: int, sequence: Option<string>)
    requires WellFormedDictionary(dict)
    requires ValidSequence(sequence) && size > 0 && size in dict
    ensures SolveWordSquare(dict, size, sequence).Success?
    ensures SolveWordSquare(dict, size, sequence).value != []
            <==> exists s :: IsWordSquareOf(dict, size, multiset(sequence.value), s)
  {
    if s :| IsWordSquareOf(dict, size, multiset(sequence.value), s) {
      SolveComplete(dict, size, sequence.value, s);
    }
  }

  /** A word square within the letters of `letters` is a solution over the
      filtered candidates, so the builder finds one. */
  lemma SolveComplete(dict: Dictionary, size: int, letters: string, s: seq<string>)
    requires WellFormedDictionary(dict) && size > 0 && AllLetters(letters)
    requires IsWordSquareOf(dict, size, multiset(letters), s)
    ensures SolveFromPool(dict, size, ParseLetterFrequencies(letters)).Success?
    ensures SolveFromPool(dict, size, ParseLetterFrequencies(letters)).value != []
  {
    var pool := ParseLetterFrequencies(letters);
    var valid := FilterWords(dict[size], pool);
    FitsParsed(LettersOf(s), letters);
    forall i | 0 <= i < size
      ensures s[i] in valid
    {
      LettersOfRow(s, i);
      assert CanFormWord(s[i], pool);
    }
    assert s[0] in valid;
    assert IsSolution(size, valid, pool, s);
  }

  /** `solveWordSquare` as its lower-casing evidently intends: the letters are
      counted after lower-casing the sequence, as the dictionary's words
      are. */
  function SolveWordSquareIgnoringCase(dict: Dictionary, size: int, sequence: Option<string>)
    : (r: Result<seq<string>, SolveError>)
    requires WellFormedDictionary(dict)
    ensures !ValidSequence(sequence) ==> r == Failure(InvalidInput)
    ensures ValidSequence(sequence) && size <= 0 ==> r == Success([])
    ensures ValidSequence(sequence) && size > 0 && size !in dict ==> r == Failure(DictionaryUnavailable)
    ensures ValidSequence(sequence) && size > 0 && size in dict ==> r.Success?
    ensures r.Success? && r.value != [] ==>
              IsWordSquareOf(dict, size, multiset(LowerString(sequence.value)), r.value)
  {
    match ValidateInput(sequence)
    case Failure(e) => Failure(e)
    case Success(s) =>
      if size <= 0 then Success([])
      else
        var lowered := LowerString(s);
        var r := SolveFromPool(dict, size, ParseLetterFrequencies(lowered));
        if r.Success? && r.value != [] then
          FitsParsed(LettersOf(r.value), lowered);
          r
        else r
  }

  /** The corrected solve does not depend on the case of the sequence. */
  lemma IgnoringCaseIsCaseInsensitive(dict: Dictionary, size: int, s: string)
    requires WellFormedDictionary(dict)
    ensures SolveWordSquareIgnoringCase(dict, size, Some(s))
            == SolveWordSquareIgnoringCase(dict, size, Some(LowerString(s)))
  {
    LowerStringIdempotent(s);
    assert ValidSequence(Some(s)) <==> ValidSequence(Some(LowerString(s)));
  }

  /** On a sequence with no upper-case letter the corrected solve and the
      solve as written agree. */
  lemma IgnoringCaseAgreesOnLowerCase(dict: Dictionary, size: int, s: string)
    requires WellFormedDictionary(dict)
    requires LowerString(s) == s
    ensures SolveWordSquareIgnoringCase(dict, size, Some(s)) == SolveWordSquare(dict, size, Some(s))
  {
  }
}
