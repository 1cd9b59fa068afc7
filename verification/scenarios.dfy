/**
 * The concrete cases of WordSquareBuilderTest.java and WordSquareSolverTest.java
 * whose outcome does not depend on a word list file (that file is not part of
 * this model). The candidates, and the dictionary's words of each length, are
 * `HashSet`s in the Java code, so each case is stated for every order of them.
 */
module WordSquareScenarios {
  import opened Wrappers
  import opened LetterPool
  import opened WordSquareBuilder
  import opened WordSquareSolver

  /** The candidates are "to" and "on", in some order, possibly repeated. */
  ghost predicate ToAndOn(cands: seq<string>)
  {
    && LongEnough(cands, 2)
    && forall w :: w in cands <==> w == "to" || w == "on"
  }

  /** Over {"to", "on"} the only 2-by-2 word square is to/on: "on" cannot
      open it, since no candidate starts with its second letter. */
  lemma OnlyToOn(cands: seq<string>, pool: Pool, s: seq<string>)
    requires ToAndOn(cands)
    requires IsSolution(2, cands, pool, s)
    ensures s == ["to", "on"]
  {
    assert s[0] in cands && s[1] in cands;
    assert s[0][1] == s[1][0];
  }

  /** The 2-by-2 case: with letters enough for "to" and "on", the builder
      returns ["to", "on"] whatever the candidate order. */
  lemma BuildToOn(cands: seq<string>, pool: Pool)
    requires ToAndOn(cands)
    requires Fits(multiset("to") + multiset("on"), pool)
    ensures Build(2, cands, pool) == Some(["to", "on"])
  {
    var square := ["to", "on"];
    LettersOfTwoRows("to", "on");
    assert "to" in cands && "on" in cands;
    assert IsSolution(2, cands, pool, square);
    BuildComplete(2, cands, pool, square);
    OnlyToOn(cands, pool, Build(2, cands, pool).value);
  }

  /** The builder's pool {t:1, o:2, n:1} is exactly the letters of to/on. */
  lemma BuildToOnExactLetters(cands: seq<string>)
    requires ToAndOn(cands)
    ensures Build(2, cands, map['t' := 1, 'o' := 2, 'n' := 1]) == Some(["to", "on"])
  {
    var pool := map['t' := 1, 'o' := 2, 'n' := 1];
    assert "to" == ['t', 'o'] && "on" == ['o', 'n'];
    assert Fits(multiset("to") + multiset("on"), pool);
    BuildToOn(cands, pool);
  }

  /** A candidate none of whose rows the pool can pay for leaves no square. */
  lemma NoAffordableCandidate(size: nat, cands: seq<string>, pool: Pool)
    requires size > 0 && LongEnough(cands, size)
    requires forall i :: 0 <= i < |cands| ==> !Fits(multiset(cands[i]), pool)
    ensures Build(size, cands, pool).None?
  {
    var r := Build(size, cands, pool);
    if r.Some? {
      LettersOfRow(r.value, 0);
    }
  }

  /** "test", "word" and "square" need letters the pool {a:1, b:1} lacks
      (their second letters), whatever the order of the candidates. */
  lemma BuildInsufficientLetters(cands: seq<string>, pool: Pool)
    requires forall i :: 0 <= i < |cands| ==>
               cands[i] == "test" || cands[i] == "word" || cands[i] == "square"
    requires pool == map['a' := 1, 'b' := 1]
    ensures Build(2, cands, pool).None?
  {
    assert "test"[1] == 'e' && "word"[1] == 'o' && "square"[1] == 'q';
    forall i | 0 <= i < |cands| ensures 2 <= |cands[i]| && !Fits(multiset(cands[i]), pool) {
      MissingLetter(cands[i], 1, pool);
    }
    NoAffordableCandidate(2, cands, pool);
  }

  /** The 3-by-3 case: any candidates of at least three letters, in any
      order, that include "cat", "are" and "tea" admit cat/are/tea within the
      letters, so the builder returns a word square. */
  lemma BuildThreeByThree(cands: seq<string>, pool: Pool)
    requires LongEnough(cands, 3) && "cat" in cands && "are" in cands && "tea" in cands
    requires pool == map['c' := 2, 'a' := 3, 't' := 2, 'r' := 2, 'e' := 3]
    ensures Build(3, cands, pool).Some?
  {
    var square := ["cat", "are", "tea"];
    CatAreTea(square, pool);
    assert IsSolution(3, cands, pool, square);
    BuildComplete(3, cands, pool, square);
  }

  /** cat/are/tea is symmetric and its letters fit the pool of the 3-by-3 case. */
  lemma CatAreTea(square: seq<string>, pool: Pool)
    requires square == ["cat", "are", "tea"]
    requires pool == map['c' := 2, 'a' := 3, 't' := 2, 'r' := 2, 'e' := 3]
    ensures IsSymmetric(square, 3)
    ensures Fits(LettersOf(square), pool)
  {
    CatAreTeaSymmetric(square[0], square[1], square[2]);
    LettersOfThreeRows(square[0], square[1], square[2]);
    assert square == [square[0], square[1], square[2]];
    CatAreTeaLetters(pool);
  }

  /** Rows cat, are and tea read the same down their columns. */
  lemma CatAreTeaSymmetric(a: string, b: string, c: string)
    requires a == "cat" && b == "are" && c == "tea"
    ensures IsSymmetric([a, b, c], 3)
  {
    assert a == ['c', 'a', 't'] && b == ['a', 'r', 'e'] && c == ['t', 'e', 'a'];
  }

  lemma CatAreTeaLetters(pool: Pool)
    requires pool == map['c' := 2, 'a' := 3, 't' := 2, 'r' := 2, 'e' := 3]
    ensures Fits(multiset("cat") + multiset("are") + multiset("tea"), pool)
  {
    var m := multiset("cat") + multiset("are") + multiset("tea");
    assert "cat" == ['c', 'a', 't'] && "are" == ['a', 'r', 'e'] && "tea" == ['t', 'e', 'a'];
    assert m['c'] == 1 && m['a'] == 3 && m['t'] == 2 && m['r'] == 1 && m['e'] == 2;
    forall c | c in m ensures c in pool && m[c] <= pool[c] {
      assert c in "cat" || c in "are" || c in "tea";
    }
  }

  /** The words are "abc", "def" and "ghi", in some order, possibly repeated. */
  ghost predicate AbcDefGhi(words: seq<string>)
  {
    forall w :: w in words <==> w == "abc" || w == "def" || w == "ghi"
  }

  /** No word of "abc", "def" and "ghi" starts with the second letter of
      one of them. */
  lemma NoLinkAbcDefGhi(w: string, v: string)
    requires w == "abc" || w == "def" || w == "ghi"
    requires v == "abc" || v == "def" || v == "ghi"
    ensures w[1] != v[0]
  {
  }

  /** Over "abc", "def" and "ghi" no 3-by-3 square exists: its second row
      would have to start with the second letter of its first. */
  lemma NoSquareOverAbcDefGhi(dict: Dictionary, budget: multiset<char>, s: seq<string>)
    requires 3 in dict && AbcDefGhi(dict[3])
    ensures !IsWordSquareOf(dict, 3, budget, s)
  {
    if |s| == 3 && s[0] in dict[3] && s[1] in dict[3] {
      NoLinkAbcDefGhi(s[0], s[1]);
    }
  }

  /** The solver over a dictionary whose three-letter words are "abc", "def"
      and "ghi" answers with the empty list for any valid sequence. */
  lemma SolveAbcDefGhi(dict: Dictionary, letters: string)
    requires WellFormedDictionary(dict) && 3 in dict && AbcDefGhi(dict[3])
    requires |letters| > 0 && AllLetters(letters)
    ensures SolveWordSquare(dict, 3, Some(letters)) == Success([])
  {
    SolveSucceedsIff(dict, 3, Some(letters));
    forall s ensures !IsWordSquareOf(dict, 3, multiset(letters), s) {
      NoSquareOverAbcDefGhi(dict, multiset(letters), s);
    }
  }

  /** A dictionary whose two-letter words are "to" and "on", in some order. */
  ghost predicate HoldsToOn(dict: Dictionary)
  {
    WellFormedDictionary(dict) && 2 in dict && ToAndOn(dict[2])
  }

  /** As written, the sequence "toon" gives to/on but "TOON" gives no square:
      its counts are kept under the upper-case letters, which no dictionary
      word uses. */
  lemma SolveIsCaseSensitive(dict: Dictionary)
    requires HoldsToOn(dict)
    ensures SolveWordSquare(dict, 2, Some("toon")) == Success(["to", "on"])
    ensures SolveWordSquare(dict, 2, Some("TOON")) == Success([])
  {
    SolveLowerToon(dict);
    SolveUpperToon(dict);
  }

  /** "toon" holds exactly the letters of to/on. */
  lemma SolveLowerToon(dict: Dictionary)
    requires HoldsToOn(dict)
    ensures SolveWordSquare(dict, 2, Some("toon")) == Success(["to", "on"])
  {
    assert "toon" == ['t', 'o', 'o', 'n'] && "to" == ['t', 'o'] && "on" == ['o', 'n'];
    SolveToOn(dict, "toon");
  }

  /** "TOON" has no lower-case 'o'. */
  lemma SolveUpperToon(dict: Dictionary)
    requires HoldsToOn(dict)
    ensures SolveWordSquare(dict, 2, Some("TOON")) == Success([])
  {
    assert "TOON" == ['T', 'O', 'O', 'N'];
    SolveWithoutLowerO(dict, "TOON");
  }

  /** A pool of counts over `letters`, which hold both words' letters, pays
      for both words together. */
  lemma ToOnFits(letters: string)
    requires AllLetters(letters)
    requires multiset("to") + multiset("on") <= multiset(letters)
    ensures Fits(multiset("to") + multiset("on"), ParseLetterFrequencies(letters))
    ensures CanFormWord("to", ParseLetterFrequencies(letters))
    ensures CanFormWord("on", ParseLetterFrequencies(letters))
  {
    FitsParsed(multiset("to") + multiset("on"), letters);
    FitsParsed(multiset("to"), letters);
    FitsParsed(multiset("on"), letters);
  }

  /** A valid sequence and a positive size go straight to the pool-based steps. */
  lemma SolveUnfold(dict: Dictionary, size: int, letters: string)
    requires WellFormedDictionary(dict) && size > 0 && ValidSequence(Some(letters))
    ensures SolveWordSquare(dict, size, Some(letters))
            == SolveFromPool(dict, size, ParseLetterFrequencies(letters))
  {
  }

  /** With a dictionary entry, the answer is the builder's over the filtered words. */
  lemma SolveFromPoolUnfold(dict: Dictionary, size: int, pool: Pool)
    requires WellFormedDictionary(dict) && size > 0 && size in dict
    requires LongEnough(FilterWords(dict[size], pool), size)
    ensures SolveFromPool(dict, size, pool)
            == Success(Build(size, FilterWords(dict[size], pool), pool).GetOr([]))
  {
  }

  /** A pool that pays for each of "to" and "on" keeps both in the filter. */
  lemma FilterToOn(words: seq<string>, pool: Pool)
    requires ToAndOn(words)
    requires CanFormWord("to", pool) && CanFormWord("on", pool)
    ensures ToAndOn(FilterWords(words, pool))
  {
    var valid := FilterWords(words, pool);
    forall i | 0 <= i < |valid| ensures 2 <= |valid[i]| {
      assert valid[i] in valid;
    }
  }

  /** Any sequence of letters that holds t, o, o, n answers to/on. */
  lemma SolveToOn(dict: Dictionary, letters: string)
    requires HoldsToOn(dict)
    requires |letters| > 0 && AllLetters(letters)
    requires multiset("to") + multiset("on") <= multiset(letters)
    ensures SolveWordSquare(dict, 2, Some(letters)) == Success(["to", "on"])
  {
    var pool := ParseLetterFrequencies(letters);
    ToOnFits(letters);
    var valid := FilterWords(dict[2], pool);
    FilterToOn(dict[2], pool);
    BuildToOn(valid, pool);
    SolveFromPoolUnfold(dict, 2, pool);
    SolveUnfold(dict, 2, letters);
  }

  /** A pool without 'o' pays for neither word, so the filter keeps none. */
  lemma FilterWithoutO(words: seq<string>, pool: Pool)
    requires ToAndOn(words)
    requires 'o' !in pool
    ensures FilterWords(words, pool) == []
  {
    assert "to" == ['t', 'o'] && "on" == ['o', 'n'];
    assert 'o' in multiset("to") && 'o' in multiset("on");
    forall w | w in words ensures !CanFormWord(w, pool) {
    }
  }

  /** Any sequence of letters without a lower-case 'o' answers with the
      empty list: neither word passes the filter. */
  lemma SolveWithoutLowerO(dict: Dictionary, letters: string)
    requires HoldsToOn(dict)
    requires |letters| > 0 && AllLetters(letters)
    requires 'o' !in letters
    ensures SolveWordSquare(dict, 2, Some(letters)) == Success([])
  {
    var pool := ParseLetterFrequencies(letters);
    assert 'o' !in pool;
    FilterWithoutO(dict[2], pool);
    SolveUnfold(dict, 2, letters);
  }

  /** The corrected solve answers "TOON" as it answers "toon". */
  lemma SolveIgnoringCaseAcceptsUpperCase(dict: Dictionary)
    requires HoldsToOn(dict)
    ensures SolveWordSquareIgnoringCase(dict, 2, Some("TOON")) == Success(["to", "on"])
  {
    assert "TOON" == ['T', 'O', 'O', 'N'] && "toon" == ['t', 'o', 'o', 'n'];
    assert LowerString("TOON") == "toon";
    assert LowerString("toon") == "toon";
    IgnoringCaseIsCaseInsensitive(dict, 2, "TOON");
    IgnoringCaseAgreesOnLowerCase(dict, 2, "toon");
    SolveLowerToon(dict);
  }
}
