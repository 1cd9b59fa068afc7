/**
 * The letter pool: a map from letter to remaining count, as built by
 * `getLetterFrequency` and queried and consumed by `hasEnoughLetters` and
 * `consumeLetters` in WordSquareBuilder.java (and by their copies in
 * WordSquareSolver.java).
 *
 * Counts are Java `Integer`s, so a pool handed to the builder from outside may
 * hold any integer; pools the solver builds only hold positive counts.
 */
module LetterPool {

  /** Letter -> remaining count; an absent letter means none are left. */
  type Pool = map<char, int>

  /** The invariant of pools the program builds itself: no stored count is <= 0. */
  predicate Positive(pool: Pool)
  {
    forall c :: c in pool ==> pool[c] >= 1
  }

  /** The letter multiset `m` can be drawn from `pool`: every letter of `m` is
      a key of `pool` whose count is at least its multiplicity in `m`. */
  predicate Fits(m: multiset<char>, pool: Pool)
  {
    forall c :: c in m ==> c in pool && m[c] <= pool[c]
  }

  /** All the letters of a list of rows, with multiplicity. */
  function LettersOf(rows: seq<string>): multiset<char>
  {
    if rows == [] then multiset{} else multiset(rows[0]) + LettersOf(rows[1..])
  }

  /** The letters of two rows are those of each row together. */
  lemma LettersOfTwoRows(a: string, b: string)
    ensures LettersOf([a, b]) == multiset(a) + multiset(b)
  {
    assert LettersOf([b]) == multiset(b) by {
      assert [b][1..] == [];
    }
    assert [a, b][1..] == [b];
  }

  /** The letters of three rows are those of each row together. */
  lemma LettersOfThreeRows(a: string, b: string, c: string)
    ensures LettersOf([a, b, c]) == multiset(a) + multiset(b) + multiset(c)
  {
    assert [a, b, c][1..] == [b, c];
    LettersOfTwoRows(b, c);
  }

  /** A word with a letter the pool has no entry for cannot be paid for. */
  lemma MissingLetter(word: string, i: nat, pool: Pool)
    requires i < |word| && word[i] !in pool
    ensures !Fits(multiset(word), pool)
  {
    assert word[i] in multiset(word);
  }

  /** Each row's letters are among the letters of all the rows. */
  lemma {:induction false} LettersOfRow(rows: seq<string>, i: nat)
    requires i < |rows|
    ensures multiset(rows[i]) <= LettersOf(rows)
  {
    if i > 0 {
      LettersOfRow(rows[1..], i - 1);
    }
  }

  /** `getLetterFrequency`: the word's characters are scanned left to right and
      each one bumps its entry (`getOrDefault(c, 0) + 1`). The map holds
      exactly the letters of the word, each with its occurrence count. */
  function LetterFrequency(word: string): (freq: map<char, int>)
    ensures forall c :: c in freq <==> c in multiset(word)
    ensures forall c :: c in freq ==> freq[c] == multiset(word)[c]
    decreases |word|
  {
    if word == [] then map[]
    else
      var front := word[..|word| - 1];
      var c := word[|word| - 1];
      assert word == front + [c];
      var before := LetterFrequency(front);
      before[c := (if c in before then before[c] else 0) + 1]
  }

  /** `hasEnoughLetters`: every entry of the word's frequency map is a key of
      the pool with at least that count. A missing key means false. */
  function HasEnoughLetters(word: string, pool: Pool): (r: bool)
    ensures r <==> Fits(multiset(word), pool)
  {
    var needed := LetterFrequency(word);
    forall c | c in needed :: c in pool && pool[c] >= needed[c]
  }

  /** `after` is `pool` with the multiset `m` taken out: the count of each
      letter of `m` drops by its multiplicity and the entry disappears when
      it reaches 0; the letters outside `m` keep their entries. */
  predicate Subtracted(pool: Pool, m: multiset<char>, after: Pool)
  {
    && (forall c :: c in m ==>
          c in pool && (c in after <==> pool[c] > m[c]) && (c in after ==> after[c] == pool[c] - m[c]))
    && (forall c :: c !in m ==> (c in after <==> c in pool) && (c in after ==> after[c] == pool[c]))
  }

  /** One pass of the loop of `consumeLetters` on letter `c`. */
  function ConsumeOne(c: char, pool: Pool): (r: Pool)
    requires c in pool
    ensures pool[c] >= 1 ==> Subtracted(pool, multiset{c}, r)
  {
    if pool[c] == 1 then pool - {c} else pool[c := pool[c] - 1]
  }

  /** Taking out `c` and then `m` is taking out `m` plus `c`. */
  lemma SubtractedStep(c: char, m: multiset<char>, pool: Pool, after: Pool)
    requires Fits(multiset{c} + m, pool)
    requires Subtracted(ConsumeOne(c, pool), m, after)
    ensures Subtracted(pool, multiset{c} + m, after)
  {
    var next := ConsumeOne(c, pool);
    var whole := multiset{c} + m;
    forall d | d in whole
      ensures d in pool && (d in after <==> pool[d] > whole[d])
      ensures d in after ==> after[d] == pool[d] - whole[d]
    {
      if d == c && c !in m {
        assert pool[c] >= 1 && whole[c] == 1;
      }
    }
  }

  /** `consumeLetters`: a copy of the pool in which, for each character of the
      word in turn, the count drops by one, and an entry whose count is 1 is
      removed instead. The caller must have checked `hasEnoughLetters` (the
      Java unboxes a null count otherwise). The result is the pool with the
      word's letters taken out, and it keeps a positive pool positive. */
  function ConsumeLetters(word: string, pool: Pool): (r: Pool)
    requires Fits(multiset(word), pool)
    ensures Subtracted(pool, multiset(word), r)
    ensures Positive(pool) ==> Positive(r)
    decreases |word|
  {
    if word == [] then pool
    else
      var c := word[0];
      var rest := word[1..];
      assert word == [c] + rest;
      var next := ConsumeOne(c, pool);
      assert Fits(multiset(rest), next);
      var r := ConsumeLetters(rest, next);
      SubtractedStep(c, multiset(rest), pool, r);
      r
  }

  /** Consuming a word is exact multiset subtraction: a multiset fits in what
      is left exactly when it fits in the pool together with the word. */
  lemma ConsumeLettersExact(word: string, pool: Pool, m: multiset<char>)
    requires Fits(multiset(word), pool)
    ensures Fits(m, ConsumeLetters(word, pool)) <==> Fits(m + multiset(word), pool)
  {
  }

  /** A pool of counts taken from a multiset admits exactly its sub-multisets. */
  lemma FitsFrequency(m: multiset<char>, s: string)
    ensures Fits(m, LetterFrequency(s)) <==> m <= multiset(s)
  {
  }
}
