/**
 * The second information-theoretic player. It narrows the pool exactly as the
 * canonical player does, but
 *  - it builds the narrowed pool in a local and stores it only once both
 *    filters have run, so a failing filter leaves the pool untouched;
 *  - its third term divides the misplaced-letter count by the size of the
 *    whole vocabulary instead of the size of the pool.
 * Everything else (good and bad letters, the filters, the other two terms,
 * the ranking) is the canonical player's.
 */
module InfoTheoreticPlayer2 {
  import opened Wrappers
  import opened Seqs
  import opened Sutom
  import opened InfoTheoreticPlayer

  /**
   * Term 3 of this player: the candidates holding `letter` elsewhere than at
   * `idx`, as a fraction of the vocabulary. It is a probability only while the
   * pool is no larger than the vocabulary, and it is the canonical term when
   * the two have the same size.
   */
  function LetterProbabilityIncorrectPosition2(pool: seq<string>, vocab: seq<string>, letter: char, idx: nat): (p: real)
    requires |vocab| > 0 && IndexableWhereLetter(pool, letter, idx)
    ensures 0.0 <= p
    ensures |pool| <= |vocab| ==> p <= 1.0
    ensures |pool| == |vocab| ==> p == LetterProbabilityIncorrectPosition(pool, letter, idx)
  {
    var c := Count(ElsewhereOnly(letter, idx), pool);
    RatioOfSmallerCount(c, |pool|, |vocab|);
    c as real / |vocab| as real
  }

  /** A count out of n, divided by v, is non-negative, and at most 1 when n <= v. */
  lemma RatioOfSmallerCount(c: nat, n: nat, v: nat)
    requires 0 < v && c <= n
    ensures 0.0 <= c as real / v as real
    ensures n <= v ==> c as real / v as real <= 1.0
  {
    if n <= v {
      RatioIsProbability(c, v);
    }
  }

  /** The gap between dividing a non-negative amount by v and by n. */
  lemma DivideByLarger(s: nat, n: nat, v: nat)
    requires 0 < n <= v
    ensures s as real / v as real <= s as real / n as real
    ensures n < v && s > 0 ==> s as real / v as real < s as real / n as real
  {
    var sr, nr, vr := s as real, n as real, v as real;
    var a, b := sr / vr, sr / nr;
    assert a * vr == sr && b * nr == sr;
    assert a * vr == b * nr;
    assert a >= 0.0;
    assert a * vr >= a * nr;
    assert (b - a) * nr >= 0.0;
    if n < v && s > 0 {
      assert a > 0.0;
      assert a * vr > a * nr;
      assert (b - a) * nr > 0.0;
    }
  }

  /**
   * The arithmetic behind `ExpectedEliminated2`: the first two terms are the
   * canonical ones, the third is the canonical one with n replaced by v.
   */
  lemma DivergenceArithmetic(p1: real, m1: nat, c1: nat, p2: real, m2: nat, c2: nat,
                             p3: real, m3: nat, c3: nat, n: nat, v: nat, e: real, e2: real)
    requires 0 < n && 0 < v && c1 + c2 + c3 == n
    requires p1 == c1 as real / n as real && m1 == n - c1
    requires p2 == c2 as real / n as real && m2 == n - c2
    requires p3 == c3 as real / v as real && m3 == n - c3
    requires e == SplitExpectation(c1, c2, c3, n)
    requires e2 == p1 * m1 as real + p2 * m2 as real + p3 * m3 as real
    ensures e2 == e - (c3 * (n - c3)) as real / n as real + (c3 * (n - c3)) as real / v as real
    ensures 0.0 <= e2
  {
    OutcomeTerm(p1, m1, c1, n);
    OutcomeTerm(p2, m2, c2, n);
    ScaledTerm(p3, m3, c3, v);
    var s1, s2, s3 := c1 * (n - c1), c2 * (n - c2), c3 * (n - c3);
    DivAdd(s1 as real, s2 as real, s3 as real, n as real);
    var a1, a2, a3, b3 := s1 as real / n as real, s2 as real / n as real, s3 as real / n as real, s3 as real / v as real;
    assert e == a1 + a2 + a3;
    assert p3 * m3 as real == b3;
    assert e2 == a1 + a2 + b3;
  }

  /**
   * Expected number of candidates eliminated by `letter` at `idx`, with the
   * third term divided by the vocabulary size v: the canonical expectation
   * minus c3 (N - c3) / N plus c3 (N - c3) / v, where c3 counts the
   * candidates holding `letter` elsewhere than at `idx`.
   */
  function ExpectedEliminated2(pool: seq<string>, vocab: seq<string>, gtLength: int, letter: char, idx: nat): (e: real)
    requires idx < gtLength && |pool| > 0 && |vocab| > 0 && Indexable(pool, idx)
    ensures var n := |pool|;
      var c3 := Count(ElsewhereOnly(letter, idx), pool);
      e == ExpectedEliminated(pool, gtLength, letter, idx)
           - (c3 * (n - c3)) as real / n as real + (c3 * (n - c3)) as real / |vocab| as real
    ensures 0.0 <= e
  {
    OutcomesPartition(pool, letter, idx);
    var n := |pool|;
    var c1 := Count(AtIdx(letter, idx), pool);
    var c2 := Count(WithoutLetter(letter), pool);
    var c3 := Count(ElsewhereOnly(letter, idx), pool);
    var p1 := LetterProbabilityAtIdx(pool, gtLength, letter, idx);
    var m1 := NbWordsDifferentLetterAtIdx(pool, letter, idx);
    var p2 := LetterProbabilityNotInGt(pool, letter);
    var m2 := NbWordsWithLetter(pool, letter);
    var p3 := LetterProbabilityIncorrectPosition2(pool, vocab, letter, idx);
    var m3 := NbWordsWithoutLetterOrPerfectMatch(pool, letter, idx);
    var e := p1 * m1 as real + p2 * m2 as real + p3 * m3 as real;
    DivergenceArithmetic(p1, m1, c1, p2, m2, c2, p3, m3, c3, n, |vocab|, ExpectedEliminated(pool, gtLength, letter, idx), e);
    e
  }

  /**
   * Dividing the third term by the vocabulary size never raises an
   * expectation while the pool is no larger than the vocabulary: it is the
   * canonical expectation when the sizes agree, and strictly below it when the
   * vocabulary is larger and the misplaced outcome is possible but not certain.
   */
  lemma {:induction false} ExpectedEliminated2Discount(pool: seq<string>, vocab: seq<string>, gtLength: int, letter: char, idx: nat)
    requires idx < gtLength && |pool| > 0 && |pool| <= |vocab| && Indexable(pool, idx)
    ensures ExpectedEliminated2(pool, vocab, gtLength, letter, idx) <= ExpectedEliminated(pool, gtLength, letter, idx)
    ensures |pool| == |vocab| ==>
      ExpectedEliminated2(pool, vocab, gtLength, letter, idx) == ExpectedEliminated(pool, gtLength, letter, idx)
    ensures |pool| < |vocab| && 0 < Count(ElsewhereOnly(letter, idx), pool) < |pool| ==>
      ExpectedEliminated2(pool, vocab, gtLength, letter, idx) < ExpectedEliminated(pool, gtLength, letter, idx)
  {
    var n := |pool|;
    var c3 := Count(ElsewhereOnly(letter, idx), pool);
    var s3 := c3 * (n - c3);
    if 0 < c3 < n {
      assert s3 > 0 by {
        ProductPositive(c3, n - c3);
      }
    }
    DivideByLarger(s3, n, |vocab|);
  }

  lemma ProductPositive(a: nat, b: nat)
    requires a > 0 && b > 0
    ensures a * b > 0
  {
  }

  /**
   * With a vocabulary larger than the pool, this player's three outcome
   * probabilities do not sum to 1. Pool ["ab", "ba"], vocabulary
   * ["ab", "ba", "cc"], letter 'b' at position 0: the letter is exact for "ba"
   * and misplaced for "ab", so the outcomes cover the pool, yet the
   * probabilities are 1/2, 0 and 1/3, which sum to 5/6.
   */
  lemma ProbabilitiesDoNotSumToOne()
    ensures LetterProbabilityAtIdx(["ab", "ba"], 2, 'b', 0) + LetterProbabilityNotInGt(["ab", "ba"], 'b')
            + LetterProbabilityIncorrectPosition2(["ab", "ba"], ["ab", "ba", "cc"], 'b', 0) == 5.0 / 6.0
  {
    var pool: seq<string> := ["ab", "ba"];
    assert pool[1..] == ["ba"] && pool[1..][1..] == [];
    assert Count(AtIdx('b', 0), pool) == 1;
    assert Count(WithoutLetter('b'), pool) == 0;
    assert Count(ElsewhereOnly('b', 0), pool) == 1;
  }

  /** The sum of this player's per-position expectations over the first `n` positions of `word`. */
  function WordScorePrefix2(pool: seq<string>, vocab: seq<string>, gtLength: int, word: string, n: nat): (s: real)
    requires n <= |word| && |vocab| > 0 && Scorable(pool, gtLength, word)
    ensures 0.0 <= s
    ensures |pool| <= |vocab| ==> s <= WordScorePrefix(pool, gtLength, word, n)
    ensures |pool| == |vocab| ==> s == WordScorePrefix(pool, gtLength, word, n)
  {
    if n == 0 then 0.0
    else
      var rest := WordScorePrefix2(pool, vocab, gtLength, word, n - 1);
      var here := ExpectedEliminated2(pool, vocab, gtLength, word[n - 1], n - 1);
      if |pool| <= |vocab| then
        ExpectedEliminated2Discount(pool, vocab, gtLength, word[n - 1], n - 1);
        rest + here
      else
        rest + here
  }

  /**
   * A word's score for this player. It never exceeds the canonical score
   * while the pool is no larger than the vocabulary, and equals it when the
   * two have the same size.
   */
  function ComputeWordScore2(pool: seq<string>, vocab: seq<string>, gtLength: int, word: string): (s: real)
    requires |vocab| > 0 && Scorable(pool, gtLength, word)
    ensures 0.0 <= s
    ensures |pool| <= |vocab| ==> s <= ComputeWordScore(pool, gtLength, word)
    ensures |pool| == |vocab| ==> s == ComputeWordScore(pool, gtLength, word)
  {
    WordScorePrefix2(pool, vocab, gtLength, word, |word|)
  }

  function Scores2(pool: seq<string>, gtLength: int, vocab: seq<string>): (scores: seq<real>)
    requires |vocab| > 0 && forall w :: w in vocab ==> Scorable(pool, gtLength, w)
    ensures |scores| == |vocab|
    ensures forall i :: 0 <= i < |vocab| ==> scores[i] == ComputeWordScore2(pool, vocab, gtLength, vocab[i])
  {
    seq(|vocab|, i requires 0 <= i < |vocab| => ComputeWordScore2(pool, vocab, gtLength, vocab[i]))
  }

  /** The first word of the vocabulary with the highest score of this player. */
  function BestGuess2(pool: seq<string>, gtLength: int, vocab: seq<string>): (best: string)
    requires |vocab| > 0 && forall w :: w in vocab ==> Scorable(pool, gtLength, w)
    ensures exists k :: (0 <= k < |vocab| && vocab[k] == best &&
      forall j :: 0 <= j < k ==> ComputeWordScore2(pool, vocab, gtLength, vocab[j]) < ComputeWordScore2(pool, vocab, gtLength, best))
    ensures forall w :: w in vocab ==> ComputeWordScore2(pool, vocab, gtLength, w) <= ComputeWordScore2(pool, vocab, gtLength, best)
  {
    var scores := Scores2(pool, gtLength, vocab);
    var k := FirstMaxIndex(scores);
    assert forall w :: w in vocab ==> exists j :: 0 <= j < |vocab| && vocab[j] == w;
    vocab[k]
  }

  /** When the pool is as large as the vocabulary, this player and the canonical one pick the same word. */
  lemma {:induction false} SameGuessAsCanonical(pool: seq<string>, gtLength: int, vocab: seq<string>)
    requires |vocab| > 0 && |pool| == |vocab| && forall w :: w in vocab ==> Scorable(pool, gtLength, w)
    ensures BestGuess2(pool, gtLength, vocab) == BestGuess(pool, gtLength, vocab)
  {
    var scores, scores2 := Scores(pool, gtLength, vocab), Scores2(pool, gtLength, vocab);
    forall i | 0 <= i < |vocab|
      ensures scores2[i] == scores[i]
    {
    }
    assert scores2 == scores;
  }

  // ---------------------------------------------------------------------------
  // The player
  // ---------------------------------------------------------------------------

  class InfoTheory2 {
    const gtLength: int
    /** The words of the ground truth's length; never modified. */
    const vocab: seq<string>
    /** The candidates still consistent with the feedback seen so far. */
    var potentialAnswers: seq<string>

    ghost predicate Valid()
      reads this
    {
      (forall w :: w in vocab ==> |w| == gtLength) && Subseq(potentialAnswers, vocab)
    }

    constructor (gtLength: int, vocab: seq<string>)
      ensures Valid()
      ensures this.gtLength == gtLength && this.vocab == FilterVocabOnSize(gtLength, vocab)
      ensures potentialAnswers == this.vocab
    {
      this.gtLength := gtLength;
      this.vocab := FilterVocabOnSize(gtLength, vocab);
      potentialAnswers := FilterVocabOnSize(gtLength, vocab);
      SubseqRefl(FilterVocabOnSize(gtLength, vocab));
    }

    /**
     * Narrows the pool with the history and stores it, then returns the single
     * candidate left, or else the first word of the vocabulary with the highest
     * score of this player. When the good-letter filter fails, the pool is left
     * as it was.
     */
    method Guess(history: seq<GuessResult>) returns (r: Result<string, PlayerError>)
      requires Valid()
      modifies this
      ensures Valid()
      ensures forall w :: w in potentialAnswers ==> |w| == gtLength
      ensures Subseq(potentialAnswers, old(potentialAnswers))
      ensures var narrowed := WithoutBadLetters(old(potentialAnswers), BadLetters(history));
        if |narrowed| > 0 && !PositionsFit(GoodResults(history), gtLength) then
          r == Err(BadPosition) && potentialAnswers == old(potentialAnswers)
        else
          potentialAnswers == Refine(old(potentialAnswers), history) &&
          r == (if |potentialAnswers| == 1 then Ok(potentialAnswers[0])
                else if |vocab| == 0 then Err(EmptyVocab)
                else if |potentialAnswers| == 0 && gtLength != 0 then Err(EmptyPool)
                else Ok(BestGuess2(potentialAnswers, gtLength, vocab)))
      ensures r.Ok? ==> r.value in vocab
    {
      var good := GoodResults(history);
      var narrowed := WithoutBadLetters(potentialAnswers, BadLetters(history));
      if |narrowed| > 0 && !PositionsFit(good, gtLength) {
        SubseqRefl(potentialAnswers);
        SubseqMembers(potentialAnswers, vocab);
        return Err(BadPosition);
      }
      var pool := WithGoodLetters(narrowed, good);
      SubseqTrans(pool, narrowed, potentialAnswers);
      SubseqTrans(pool, potentialAnswers, vocab);
      SubseqMembers(pool, vocab);
      potentialAnswers := pool;
      if |pool| == 1 {
        return Ok(pool[0]);
      }
      if |vocab| == 0 {
        return Err(EmptyVocab);
      }
      if |pool| == 0 && gtLength != 0 {
        return Err(EmptyPool);
      }
      r := Ok(BestGuess2(pool, gtLength, vocab));
    }
  }
}
