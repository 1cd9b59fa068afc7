/**
 * WordSquareBuilder.java: the depth-first backtracking search that grows a
 * square one row at a time so that row i reads the same as column i.
 *
 * The Java object holds `size` and the candidate set `validWords`; here both
 * are explicit parameters, and the candidate set is a sequence so that the
 * order in which the search tries words (a `HashSet` iteration order in the
 * Java) is part of the input. The Java keeps one mutable row list and undoes
 * an append on backtrack; the model passes an immutable square instead, which
 * visits the same states in the same order.
 */
module WordSquareBuilder {
  import opened Wrappers
  import opened LetterPool

  /** Every word of `words` is at least `n` characters long, so that the
      builder's `charAt(row)` and `charAt(col)` (row, col < size) are defined. */
  predicate LongEnough(words: seq<string>, n: nat)
  {
    forall i :: 0 <= i < |words| ==> n <= |words[i]|
  }

  /** The top-left n-by-n block of `s` reads the same by rows and by columns. */
  predicate IsSymmetric(s: seq<string>, n: nat)
  {
    && n <= |s|
    && (forall i :: 0 <= i < n ==> n <= |s[i]|)
    && (forall i, j :: 0 <= i < n && 0 <= j < n ==> s[i][j] == s[j][i])
  }

  /** A finished word square over the candidates that the pool can pay for. */
  predicate IsSolution(size: nat, cands: seq<string>, pool: Pool, s: seq<string>)
  {
    && |s| == size
    && (forall i :: 0 <= i < size ==> s[i] in cands)
    && IsSymmetric(s, size)
    && Fits(LettersOf(s), pool)
  }

  /** Column `col` of the first `k` rows, top to bottom. */
  function Column(square: seq<string>, col: nat, k: nat): (r: string)
    requires k <= |square|
    requires forall i :: 0 <= i < k ==> col < |square[i]|
    ensures |r| == k
    ensures forall i :: 0 <= i < k ==> r[i] == square[i][col]
  {
    if k == 0 then [] else Column(square, col, k - 1) + [square[k - 1][col]]
  }

  /** `getRequiredPrefix`: the characters the rows already placed force on
      the start of row `row`, namely column `row` of those rows. */
  function RequiredPrefix(square: seq<string>, row: nat): (p: string)
    requires row <= |square|
    requires forall i :: 0 <= i < row ==> row < |square[i]|
    ensures |p| == row
    ensures forall c :: 0 <= c < row ==> p[c] == square[c][row]
  {
    if row == 0 then "" else Column(square, row, row)
  }

  /** `matchesPrefix`, i.e. Java's `startsWith`. */
  function MatchesPrefix(word: string, prefix: string): (r: bool)
    ensures r <==> |prefix| <= |word| && forall i :: 0 <= i < |prefix| ==> word[i] == prefix[i]
    ensures prefix == [] ==> r
  {
    |prefix| <= |word| && word[..|prefix|] == prefix
  }

  /** `buildPartialColumn`: column `col` of the rows placed so far, followed by
      the character the candidate for row `row` would put there. */
  function BuildPartialColumn(square: seq<string>, word: string, row: nat, col: nat): (r: string)
    requires row <= |square|
    requires forall i :: 0 <= i < row ==> col < |square[i]|
    requires col < |word|
    ensures |r| == row + 1
    ensures forall i :: 0 <= i < row ==> r[i] == square[i][col]
    ensures r[row] == word[col]
  {
    Column(square, col, row) + [word[col]]
  }

  /** `canCompleteToValidWord`: some candidate starts with `prefix`. The Java
      scans the set and stops at the first hit. */
  function CanCompleteToValidWord(cands: seq<string>, prefix: string): (r: bool)
    ensures r <==> exists w :: w in cands && MatchesPrefix(w, prefix)
  {
    if cands == [] then false
    else MatchesPrefix(cands[0], prefix) || CanCompleteToValidWord(cands[1..], prefix)
  }

  /** The loop of `maintainsSquareProperty` from column `col` on. */
  function ColumnsCompletable(size: nat, cands: seq<string>, square: seq<string>,
                              word: string, row: nat, col: nat): (r: bool)
    requires row <= |square| && LongEnough(square[..row], size) && size <= |word|
    ensures r <==> forall c :: col <= c < size ==>
                     CanCompleteToValidWord(cands, BuildPartialColumn(square, word, row, c))
    decreases size - col
  {
    if col >= size then true
    else
      CanCompleteToValidWord(cands, BuildPartialColumn(square, word, row, col))
      && ColumnsCompletable(size, cands, square, word, row, col + 1)
  }

  /** `maintainsSquareProperty`: placing `word` in row `row` leaves every
      later column with a partial column that some candidate starts with. */
  function MaintainsSquareProperty(size: nat, cands: seq<string>, square: seq<string>,
                                   word: string, row: nat): (r: bool)
    requires row <= |square| && LongEnough(square[..row], size) && size <= |word|
    ensures r <==> forall c :: row < c < size ==>
                     CanCompleteToValidWord(cands, BuildPartialColumn(square, word, row, c))
    ensures row + 1 >= size ==> r
  {
    ColumnsCompletable(size, cands, square, word, row, row + 1)
  }

  /** The three filters `buildSquare` applies to a candidate for the next row:
      the word starts with the forced prefix, the pool pays for it, and every
      later column it starts can still be completed by some candidate. */
  function Admissible(size: nat, cands: seq<string>, square: seq<string>, pool: Pool, word: string): (r: bool)
    requires |square| < size && LongEnough(square, size) && size <= |word|
    ensures r <==>
              && MatchesPrefix(word, RequiredPrefix(square, |square|))
              && Fits(multiset(word), pool)
              && (forall c :: |square| < c < size ==>
                    exists w :: w in cands && MatchesPrefix(w, BuildPartialColumn(square, word, |square|, c)))
  {
    && MatchesPrefix(word, RequiredPrefix(square, |square|))
    && HasEnoughLetters(word, pool)
    && MaintainsSquareProperty(size, cands, square, word, |square|)
  }

  /** Appending a row of at least `n` letters keeps every row that long. */
  lemma ExtendLongEnough(square: seq<string>, word: string, n: nat)
    requires LongEnough(square, n) && n <= |word|
    ensures LongEnough(square + [word], n)
  {
  }

  /** A row admitted after a symmetric block keeps the block symmetric. */
  lemma SymmetricExtend(size: nat, square: seq<string>, word: string)
    requires |square| < size && LongEnough(square, size) && size <= |word|
    requires IsSymmetric(square, |square|)
    requires MatchesPrefix(word, RequiredPrefix(square, |square|))
    ensures IsSymmetric(square + [word], |square| + 1)
  {
    var n := |square|;
    var s := square + [word];
    var p := RequiredPrefix(square, n);
    forall i, j | 0 <= i < n + 1 && 0 <= j < n + 1
      ensures s[i][j] == s[j][i]
    {
      if i == n && j < n {
        assert s[i][j] == p[j];
      } else if j == n && i < n {
        assert s[j][i] == p[i];
      }
    }
  }

  /** What a successful search below an admitted row says about the square
      one level up: the row is a candidate, its letters come out of the pool,
      and symmetry is carried up. */
  lemma AcceptedRow(size: nat, cands: seq<string>, square: seq<string>, pool: Pool,
                    word: string, s: seq<string>)
    requires |square| < size && LongEnough(square, size) && size <= |word|
    requires word in cands
    requires MatchesPrefix(word, RequiredPrefix(square, |square|))
    requires Fits(multiset(word), pool)
    requires |s| == size && s[..|square| + 1] == square + [word]
    requires forall i :: |square| + 1 <= i < size ==> s[i] in cands
    requires Fits(LettersOf(s[|square| + 1..]), ConsumeLetters(word, pool))
    requires IsSymmetric(square + [word], |square| + 1) ==> IsSymmetric(s, size)
    ensures Extends(size, cands, square, pool, s)
  {
    var n := |square|;
    assert s[..n] == s[..n + 1][..n];
    assert s[n] == (square + [word])[n];
    LettersStep(word, pool, s, n);
    if IsSymmetric(square, n) {
      SymmetricExtend(size, square, word);
    }
  }

  /** The letters of rows n.. are row n's letters plus those of the rows
      after it, so they fit the pool when the later rows fit what row n
      leaves of it. */
  lemma LettersStep(word: string, pool: Pool, s: seq<string>, n: nat)
    requires n < |s| && s[n] == word
    requires Fits(multiset(word), pool)
    requires Fits(LettersOf(s[n + 1..]), ConsumeLetters(word, pool))
    ensures Fits(LettersOf(s[n..]), pool)
  {
    assert s[n..][1..] == s[n + 1..];
    ConsumeLettersExact(word, pool, LettersOf(s[n + 1..]));
  }

  /** `s` has `size` rows and starts with `square`; its other rows are
      candidates whose letters `pool` pays for; and it is symmetric when
      `square` is. */
  predicate Extends(size: nat, cands: seq<string>, square: seq<string>, pool: Pool, s: seq<string>)
  {
    && |s| == size && |square| <= size && s[..|square|] == square
    && (forall i :: |square| <= i < size ==> s[i] in cands)
    && Fits(LettersOf(s[|square|..]), pool)
    && (IsSymmetric(square, |square|) ==> IsSymmetric(s, size))
  }

  /** `buildSquare`: the square is complete when it has `size` rows; otherwise
      the candidates are tried in order for the next row. A result extends the
      given square with candidates only, the letters of the added rows fit the
      pool, and a symmetric start gives a symmetric square. */
  function Search(size: nat, cands: seq<string>, square: seq<string>, pool: Pool): (r: Option<seq<string>>)
    requires LongEnough(cands, size)
    requires |square| <= size && LongEnough(square, size)
    ensures r.Some? ==> Extends(size, cands, square, pool, r.value)
    decreases size - |square|, 1, 0
  {
    if |square| == size then
      assert square[|square|..] == [];
      Some(square)
    else TryCandidates(size, cands, square, pool, 0)
  }

  /** The `for` loop of `buildSquare` from the `k`-th candidate on: the first
      admissible candidate whose recursive search succeeds wins; a failed
      branch moves on to the next candidate with the same square and pool. */
  function TryCandidates(size: nat, cands: seq<string>, square: seq<string>, pool: Pool, k: nat)
    : (r: Option<seq<string>>)
    requires LongEnough(cands, size) && k <= |cands|
    requires |square| < size && LongEnough(square, size)
    ensures r.Some? ==> Extends(size, cands, square, pool, r.value)
    decreases size - |square|, 0, |cands| - k
  {
    if k == |cands| then None
    else
      var word := cands[k];
      if !Admissible(size, cands, square, pool, word) then
        TryCandidates(size, cands, square, pool, k + 1)
      else
        ExtendLongEnough(square, word, size);
        var next := Search(size, cands, square + [word], ConsumeLetters(word, pool));
        if next.None? then TryCandidates(size, cands, square, pool, k + 1)
        else
          AcceptedRow(size, cands, square, pool, word, next.value);
          next
  }

  /** `build`: run the search from the empty square. Any square it returns is
      a word square of `size` rows drawn from the candidates whose letters the
      pool can pay for. */
  function Build(size: nat, cands: seq<string>, pool: Pool): (r: Option<seq<string>>)
    requires LongEnough(cands, size)
    ensures r.Some? ==> IsSolution(size, cands, pool, r.value)
    ensures size == 0 ==> r == Some([])
    ensures size > 0 && cands == [] ==> r.None?
  {
    var r := Search(size, cands, [], pool);
    if r.Some? then
      assert r.value[0..] == r.value;
      r
    else r
  }

  /** `s` is a word square whose first rows are `square` and whose other
      rows are candidates paid for by `pool`. */
  predicate CompletesTo(size: nat, cands: seq<string>, square: seq<string>, pool: Pool, s: seq<string>)
  {
    && |s| == size && |square| <= size && s[..|square|] == square
    && (forall i :: |square| <= i < size ==> s[i] in cands)
    && IsSymmetric(s, size)
    && Fits(LettersOf(s[|square|..]), pool)
  }

  /** The transpose constraint: in a symmetric square the prefix forced on
      row n by the rows above is the start of row n. */
  lemma SolutionRowMatchesPrefix(size: nat, square: seq<string>, s: seq<string>)
    requires |square| < size && LongEnough(square, size)
    requires |s| == size && s[..|square|] == square && IsSymmetric(s, size)
    ensures MatchesPrefix(s[|square|], RequiredPrefix(square, |square|))
  {
    var n := |square|;
    var p := RequiredPrefix(square, n);
    forall c | 0 <= c < n
      ensures s[n][c] == p[c]
    {
      assert p[c] == square[c][n] == s[c][n];
    }
  }

  /** In a symmetric square whose later rows are candidates, each later
      column of the rows up to n is the start of a candidate. */
  lemma SolutionRowKeepsColumns(size: nat, cands: seq<string>, square: seq<string>, s: seq<string>)
    requires |square| < size && LongEnough(square, size)
    requires |s| == size && s[..|square|] == square && IsSymmetric(s, size)
    requires forall i :: |square| <= i < size ==> s[i] in cands
    ensures MaintainsSquareProperty(size, cands, square, s[|square|], |square|)
  {
    var n := |square|;
    var word := s[n];
    forall c | n < c < size
      ensures CanCompleteToValidWord(cands, BuildPartialColumn(square, word, n, c))
    {
      var partial := BuildPartialColumn(square, word, n, c);
      forall i | 0 <= i <= n
        ensures s[c][i] == partial[i]
      {
        if i < n {
          assert partial[i] == square[i][c] == s[i][c];
        }
      }
      assert s[c] in cands && MatchesPrefix(s[c], partial);
    }
  }

  /** The letters of row n fit the pool, and the rows after it fit what row
      n leaves of the pool. */
  lemma SolutionRowFits(pool: Pool, s: seq<string>, n: nat)
    requires n < |s| && Fits(LettersOf(s[n..]), pool)
    ensures HasEnoughLetters(s[n], pool)
    ensures Fits(LettersOf(s[n + 1..]), ConsumeLetters(s[n], pool))
  {
    assert s[n..] == [s[n]] + s[n + 1..];
    assert Fits(multiset(s[n]), pool);
    ConsumeLettersExact(s[n], pool, LettersOf(s[n + 1..]));
  }

  /** The next row of a square the search could still reach passes all three
      filters, and the rest of that square stays reachable after it. */
  lemma SolutionRowAdmissible(size: nat, cands: seq<string>, square: seq<string>, pool: Pool,
                              s: seq<string>)
    requires LongEnough(cands, size)
    requires |square| < size && LongEnough(square, size)
    requires CompletesTo(size, cands, square, pool, s)
    ensures size <= |s[|square|]|
    ensures Admissible(size, cands, square, pool, s[|square|])
    ensures CompletesTo(size, cands, square + [s[|square|]],
                        ConsumeLetters(s[|square|], pool), s)
  {
    var n := |square|;
    SolutionRowMatchesPrefix(size, square, s);
    SolutionRowKeepsColumns(size, cands, square, s);
    SolutionRowFits(pool, s, n);
    assert s[..n + 1] == square + [s[n]];
  }

  /** One round of the candidate loop: an admissible candidate whose search
      succeeds ends it, anything else moves on to the next candidate. */
  lemma TryCandidatesStep(size: nat, cands: seq<string>, square: seq<string>, pool: Pool, k: nat)
    requires LongEnough(cands, size) && k < |cands|
    requires |square| < size && LongEnough(square, size)
    ensures size <= |cands[k]|
    ensures Admissible(size, cands, square, pool, cands[k])
            && Search(size, cands, square + [cands[k]], ConsumeLetters(cands[k], pool)).Some?
            ==> TryCandidates(size, cands, square, pool, k)
                == Search(size, cands, square + [cands[k]], ConsumeLetters(cands[k], pool))
    ensures !(Admissible(size, cands, square, pool, cands[k])
              && Search(size, cands, square + [cands[k]], ConsumeLetters(cands[k], pool)).Some?)
            ==> TryCandidates(size, cands, square, pool, k) == TryCandidates(size, cands, square, pool, k + 1)
  {
  }

  /** If a word square extends the current one within the pool, the search
      from here finds one (not necessarily the same). */
  lemma {:induction false} SearchComplete(size: nat, cands: seq<string>, square: seq<string>,
                                          pool: Pool, s: seq<string>)
    requires LongEnough(cands, size)
    requires |square| <= size && LongEnough(square, size)
    requires CompletesTo(size, cands, square, pool, s)
    ensures Search(size, cands, square, pool).Some?
    decreases size - |square|, 1, 0
  {
    if |square| < size {
      var n := |square|;
      assert s[n] in cands;
      var target :| 0 <= target < |cands| && cands[target] == s[n];
      TryCandidatesComplete(size, cands, square, pool, s, 0, target);
    }
  }

  /** The next row of a reachable square is admitted, and the search below
      it succeeds. */
  lemma {:induction false} SolutionRowSucceeds(size: nat, cands: seq<string>, square: seq<string>,
                                               pool: Pool, s: seq<string>)
    requires LongEnough(cands, size)
    requires |square| < size && LongEnough(square, size)
    requires CompletesTo(size, cands, square, pool, s)
    ensures size <= |s[|square|]|
    ensures Admissible(size, cands, square, pool, s[|square|])
    ensures Search(size, cands, square + [s[|square|]], ConsumeLetters(s[|square|], pool)).Some?
    decreases size - |square|, 0, 0
  {
    var word := s[|square|];
    SolutionRowAdmissible(size, cands, square, pool, s);
    var next := square + [word];
    assert LongEnough(next, size);
    SearchComplete(size, cands, next, ConsumeLetters(word, pool), s);
  }

  /** The loop over candidates, from the `k`-th on, succeeds when the next
      row of a reachable square is still ahead of it, at index `target`. */
  lemma {:induction false} TryCandidatesComplete(size: nat, cands: seq<string>, square: seq<string>,
                                                 pool: Pool, s: seq<string>, k: nat, target: nat)
    requires LongEnough(cands, size)
    requires |square| < size && LongEnough(square, size)
    requires CompletesTo(size, cands, square, pool, s)
    requires k <= target < |cands| && cands[target] == s[|square|]
    ensures TryCandidates(size, cands, square, pool, k).Some?
    decreases size - |square|, 0, |cands| - k
  {
    var word := cands[k];
    assert size <= |word|;
    TryCandidatesStep(size, cands, square, pool, k);
    if k == target {
      SolutionRowSucceeds(size, cands, square, pool, s);
    } else {
      // either this candidate already succeeds, or the loop goes on to reach `target`
      TryCandidatesComplete(size, cands, square, pool, s, k + 1, target);
    }
  }

  /** `build` misses no square: whenever some word square over the candidates
      fits the pool, the search returns one. */
  lemma BuildComplete(size: nat, cands: seq<string>, pool: Pool, s: seq<string>)
    requires LongEnough(cands, size)
    requires IsSolution(size, cands, pool, s)
    ensures Build(size, cands, pool).Some?
  {
    assert s[0..] == s;
    SearchComplete(size, cands, [], pool, s);
  }

  /** `build` returns a square exactly when a word square over the
      candidates fits the pool. */
  lemma BuildSucceedsIff(size: nat, cands: seq<string>, pool: Pool)
    requires LongEnough(cands, size)
    ensures Build(size, cands, pool).Some? <==> exists s :: IsSolution(size, cands, pool, s)
  {
    if s :| IsSolution(size, cands, pool, s) {
      BuildComplete(size, cands, pool, s);
    }
  }
}
