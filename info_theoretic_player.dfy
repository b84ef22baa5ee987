/**
 * The information-theoretic SUTOM player: it narrows a pool of candidate
 * answers with the feedback history, then picks the word of its vocabulary
 * whose letters are expected to eliminate the most candidates.
 *
 * Scores are exact reals: every quantity is a count or a ratio of counts.
 */
module InfoTheoreticPlayer {
  import opened Wrappers
  import opened Seqs
  import opened Sutom

  /** Why `Guess` produced no word (each is an exception in the player). */
  datatype PlayerError =
    | BadPosition   // a perfect-match verdict points past the end of the candidates (IndexError)
    | EmptyPool     // a probability divides by an empty pool (ZeroDivisionError)
    | EmptyVocab    // there is no word to rank (IndexError on the empty ranking)

  /** The words of `vocab` that have the ground truth's length, in order. */
  function FilterVocabOnSize(gtLength: int, vocab: seq<string>): (r: seq<string>)
    ensures forall w :: w in r <==> w in vocab && |w| == gtLength
    ensures forall w :: multiset(r)[w] == if |w| == gtLength then multiset(vocab)[w] else 0
    ensures Subseq(r, vocab)
  {
    Filter(w => |w| == gtLength, vocab)
  }

  // ---------------------------------------------------------------------------
  // Good and bad letters
  // ---------------------------------------------------------------------------

  /** All verdicts of the history, record after record. */
  function Flatten(h: seq<GuessResult>): (rs: seq<LetterResult>)
    ensures forall r :: r in rs <==> exists k :: 0 <= k < |h| && r in h[k].results
  {
    if h == [] then []
    else
      var rest := Flatten(h[1..]);
      assert forall r :: r in h[0].results + rest <==> exists k :: 0 <= k < |h| && r in h[k].results by {
        forall r | r in rest
          ensures exists k :: 0 <= k < |h| && r in h[k].results
        {
          var k :| 0 <= k < |h| - 1 && r in h[1..][k].results;
          assert r in h[k + 1].results;
        }
        forall r, k | 0 < k < |h| && r in h[k].results
          ensures r in rest
        {
          assert r in h[1..][k - 1].results;
        }
      }
      h[0].results + rest
  }

  /** The verdicts known to place their letter in the ground truth (`letters_in_gt`). */
  function GoodResults(h: seq<GuessResult>): (good: set<LetterResult>)
    ensures forall r :: r in good <==> r.status != NotFound && exists k :: 0 <= k < |h| && r in h[k].results
  {
    set r | r in Flatten(h) && r.status != NotFound
  }

  /** The letters of the good verdicts: every letter some record credits, and no other. */
  function GoodLetters(h: seq<GuessResult>): (letters: set<char>)
    ensures forall k, r :: 0 <= k < |h| && r in h[k].results && r.status != NotFound ==> r.letter in letters
    ensures forall c :: c in letters ==>
      exists k, r :: 0 <= k < |h| && r in h[k].results && r.status != NotFound && r.letter == c
  {
    set r | r in GoodResults(h) :: r.letter
  }

  /** `NotFound` verdicts for letters that no good verdict mentions (`letters_not_in_gt`). */
  function BadResults(h: seq<GuessResult>): (bad: set<LetterResult>)
    ensures forall r :: r in bad <==>
      r.status == NotFound && r.letter !in GoodLetters(h) && exists k :: 0 <= k < |h| && r in h[k].results
  {
    set r | r in Flatten(h) && r.status == NotFound && r.letter !in GoodLetters(h)
  }

  /**
   * The letters of the bad verdicts. They never overlap the good letters,
   * because the good ones are computed first.
   */
  function BadLetters(h: seq<GuessResult>): (letters: set<char>)
    ensures GoodLetters(h) !! letters
    ensures forall c :: c in letters <==>
      c !in GoodLetters(h) && exists r :: r in Flatten(h) && r.status == NotFound && r.letter == c
  {
    var letters := set r | r in BadResults(h) :: r.letter;
    assert forall c :: c in letters ==> c !in GoodLetters(h) by {
      forall c | c in letters
        ensures c !in GoodLetters(h)
      {
        var r :| r in BadResults(h) && r.letter == c;
      }
    }
    letters
  }

  // ---------------------------------------------------------------------------
  // Narrowing the pool
  // ---------------------------------------------------------------------------

  function NoBadLetter(bad: set<char>): string -> bool
  {
    w => forall c :: c in w ==> c !in bad
  }

  /**
   * Every good verdict holds of `w`: an exact match at its position, otherwise
   * the letter somewhere. A position past the end of `w` does not hold (the
   * player raises there; `PositionsFit` says when it cannot).
   */
  function SatisfiesGood(good: set<LetterResult>): string -> bool
  {
    w => forall r :: r in good ==>
      if r.status == PerfectMatch then r.position < |w| && w[r.position] == r.letter
      else r.letter in w
  }

  /** No perfect-match verdict of `good` points at or past position `n`. */
  predicate PositionsFit(good: set<LetterResult>, n: int)
  {
    forall r :: r in good && r.status == PerfectMatch ==> r.position < n
  }

  function WithoutBadLetters(pool: seq<string>, bad: set<char>): (r: seq<string>)
    ensures forall w :: w in r <==> w in pool && forall c :: c in w ==> c !in bad
    ensures Subseq(r, pool)
  {
    Filter(NoBadLetter(bad), pool)
  }

  function WithGoodLetters(pool: seq<string>, good: set<LetterResult>): (r: seq<string>)
    ensures forall w :: w in r <==> w in pool && SatisfiesGood(good)(w)
    ensures Subseq(r, pool)
  {
    Filter(SatisfiesGood(good), pool)
  }

  /** One narrowing step: drop words with a bad letter, then words breaking a good verdict. */
  function Refine(pool: seq<string>, h: seq<GuessResult>): (r: seq<string>)
    ensures |r| <= |pool|
    ensures forall w :: w in r ==> w in pool
  {
    WithGoodLetters(WithoutBadLetters(pool, BadLetters(h)), GoodResults(h))
  }

  /** The refined pool is the old pool, minus exactly the words the history rules out. */
  lemma RefineCharacterisation(pool: seq<string>, h: seq<GuessResult>)
    ensures forall w :: w in Refine(pool, h) <==>
      w in pool && NoBadLetter(BadLetters(h))(w) && SatisfiesGood(GoodResults(h))(w)
    ensures Subseq(Refine(pool, h), pool)
  {
    var p1 := WithoutBadLetters(pool, BadLetters(h));
    SubseqTrans(Refine(pool, h), p1, pool);
  }

  /** Narrowing twice with the same history changes nothing more. */
  lemma RefineIdempotent(pool: seq<string>, h: seq<GuessResult>)
    ensures Refine(Refine(pool, h), h) == Refine(pool, h)
  {
    var once := Refine(pool, h);
    RefineCharacterisation(pool, h);
    FilterAllPass(NoBadLetter(BadLetters(h)), once);
    FilterAllPass(SatisfiesGood(GoodResults(h)), once);
  }

  /** A verdict of a history scored against `gt` is `gt`'s verdict for one of its guesses. */
  lemma VerdictOrigin(h: seq<GuessResult>, gt: string, r: LetterResult)
    requires ConsistentWith(h, gt) && r in Flatten(h)
    ensures exists k :: 0 <= k < |h| && r.position < |gt| && r == Score(gt, h[k].guess)[r.position]
  {
    var k :| 0 <= k < |h| && r in h[k].results;
    var i :| 0 <= i < |h[k].results| && h[k].results[i] == r;
  }

  /**
   * A `NotFound` verdict for a letter the ground truth does contain comes with
   * a credited verdict for that letter in the same record, so the letter is good.
   */
  lemma AbsentVerdictOfPresentLetter(h: seq<GuessResult>, gt: string, r: LetterResult)
    requires ConsistentWith(h, gt) && r in Flatten(h) && r.status == NotFound && r.letter in gt
    ensures r.letter in GoodLetters(h)
  {
    VerdictOrigin(h, gt, r);
    var k :| 0 <= k < |h| && r.position < |gt| && r == Score(gt, h[k].guess)[r.position];
    var g := h[k].guess;
    NotFoundLetterCreditedElsewhere(gt, g, r.position);
    var j :| 0 <= j < |gt| && g[j] == r.letter && StatusAt(gt, g, j) != NotFound;
    assert Score(gt, g)[j] in h[k].results;
    assert Score(gt, g)[j] in GoodResults(h);
  }

  /** A bad letter does not occur in a ground truth the history was scored against. */
  lemma BadLetterAbsent(h: seq<GuessResult>, gt: string, c: char)
    requires ConsistentWith(h, gt) && c in BadLetters(h)
    ensures c !in gt
  {
    var r :| r in BadResults(h) && r.letter == c;
    if c in gt {
      AbsentVerdictOfPresentLetter(h, gt, r);
    }
  }

  /** Every good verdict holds of a ground truth the history was scored against. */
  lemma GoodResultHolds(h: seq<GuessResult>, gt: string)
    requires ConsistentWith(h, gt)
    ensures SatisfiesGood(GoodResults(h))(gt)
    ensures PositionsFit(GoodResults(h), |gt|)
  {
    forall r | r in GoodResults(h)
      ensures if r.status == PerfectMatch then r.position < |gt| && gt[r.position] == r.letter
              else r.letter in gt
    {
      VerdictOrigin(h, gt, r);
      var k :| 0 <= k < |h| && r.position < |gt| && r == Score(gt, h[k].guess)[r.position];
    }
  }

  /**
   * Soundness of narrowing: when the history was produced by the feedback
   * engine for `gt`, a pool that holds `gt` still holds it after `Refine`.
   */
  lemma GroundTruthSurvives(pool: seq<string>, h: seq<GuessResult>, gt: string)
    requires ConsistentWith(h, gt) && gt in pool
    ensures gt in Refine(pool, h)
  {
    RefineCharacterisation(pool, h);
    GoodResultHolds(h, gt);
    forall c | c in gt
      ensures c !in BadLetters(h)
    {
      if c in BadLetters(h) {
        BadLetterAbsent(h, gt, c);
      }
    }
  }

  // ---------------------------------------------------------------------------
  // Expected number of candidates a letter eliminates
  // ---------------------------------------------------------------------------

  /** The candidate has `letter` at `idx` (the letter would be an exact match). */
  function AtIdx(letter: char, idx: nat): string -> bool
  {
    w => idx < |w| && w[idx] == letter
  }

  function DifferentAtIdx(letter: char, idx: nat): string -> bool
  {
    w => idx < |w| && w[idx] != letter
  }

  function WithoutLetter(letter: char): string -> bool
  {
    w => letter !in w
  }

  function WithLetter(letter: char): string -> bool
  {
    w => letter in w
  }

  /** The candidate has `letter`, but not at `idx` (the letter would be misplaced). */
  function ElsewhereOnly(letter: char, idx: nat): string -> bool
  {
    w => letter in w && idx < |w| && w[idx] != letter
  }

  function WithoutLetterOrAtIdx(letter: char, idx: nat): string -> bool
  {
    w => letter !in w || (idx < |w| && w[idx] == letter)
  }

  /** Every candidate can be indexed at `idx`. */
  predicate Indexable(pool: seq<string>, idx: nat)
  {
    forall w :: w in pool ==> idx < |w|
  }

  /** Every candidate holding `letter` can be indexed at `idx` (the only ones a short-circuit test indexes). */
  predicate IndexableWhereLetter(pool: seq<string>, letter: char, idx: nat)
  {
    forall w :: w in pool && letter in w ==> idx < |w|
  }

  /** A count over the pool, as a fraction of the pool, is a probability. */
  lemma RatioIsProbability(c: nat, n: nat)
    requires 0 < n && c <= n
    ensures 0.0 <= c as real / n as real <= 1.0
  {
  }

  /** Term 1: the fraction of candidates with `letter` at `idx`. */
  function LetterProbabilityAtIdx(pool: seq<string>, gtLength: int, letter: char, idx: nat): (p: real)
    requires idx < gtLength && |pool| > 0 && Indexable(pool, idx)
    ensures 0.0 <= p <= 1.0
  {
    RatioIsProbability(Count(AtIdx(letter, idx), pool), |pool|);
    Count(AtIdx(letter, idx), pool) as real / |pool| as real
  }

  /** The candidates an exact match at `idx` would eliminate: all those without `letter` there. */
  function NbWordsDifferentLetterAtIdx(pool: seq<string>, letter: char, idx: nat): (n: nat)
    requires Indexable(pool, idx)
    ensures n == |pool| - Count(AtIdx(letter, idx), pool)
  {
    CountComplement(AtIdx(letter, idx), DifferentAtIdx(letter, idx), pool);
    Count(DifferentAtIdx(letter, idx), pool)
  }

  /** Term 2: the fraction of candidates without `letter`. */
  function LetterProbabilityNotInGt(pool: seq<string>, letter: char): (p: real)
    requires |pool| > 0
    ensures 0.0 <= p <= 1.0
  {
    RatioIsProbability(Count(WithoutLetter(letter), pool), |pool|);
    Count(WithoutLetter(letter), pool) as real / |pool| as real
  }

  /** The candidates a `NotFound` verdict would eliminate: all those with `letter`. */
  function NbWordsWithLetter(pool: seq<string>, letter: char): (n: nat)
    ensures n == |pool| - Count(WithoutLetter(letter), pool)
  {
    CountComplement(WithoutLetter(letter), WithLetter(letter), pool);
    Count(WithLetter(letter), pool)
  }

  /** Term 3: the fraction of candidates holding `letter` elsewhere than at `idx`. */
  function LetterProbabilityIncorrectPosition(pool: seq<string>, letter: char, idx: nat): (p: real)
    requires |pool| > 0 && IndexableWhereLetter(pool, letter, idx)
    ensures 0.0 <= p <= 1.0
  {
    RatioIsProbability(Count(ElsewhereOnly(letter, idx), pool), |pool|);
    Count(ElsewhereOnly(letter, idx), pool) as real / |pool| as real
  }

  /** The candidates a misplaced verdict would eliminate: all those without `letter` or with it at `idx`. */
  function NbWordsWithoutLetterOrPerfectMatch(pool: seq<string>, letter: char, idx: nat): (n: nat)
    requires IndexableWhereLetter(pool, letter, idx)
    ensures n == |pool| - Count(ElsewhereOnly(letter, idx), pool)
  {
    CountComplement(ElsewhereOnly(letter, idx), WithoutLetterOrAtIdx(letter, idx), pool);
    Count(WithoutLetterOrAtIdx(letter, idx), pool)
  }

  /** The three outcomes of a letter at `idx` (exact, absent, misplaced) split the pool. */
  lemma OutcomesPartition(pool: seq<string>, letter: char, idx: nat)
    requires Indexable(pool, idx)
    ensures Count(AtIdx(letter, idx), pool) + Count(WithoutLetter(letter), pool)
            + Count(ElsewhereOnly(letter, idx), pool) == |pool|
  {
    CountPartition(AtIdx(letter, idx), WithoutLetter(letter), ElsewhereOnly(letter, idx), pool);
  }

  /** A count c divided by v, times m, is c m / v. */
  lemma ScaledTerm(p: real, m: nat, c: nat, v: nat)
    requires 0 < v && p == c as real / v as real
    ensures p * m as real == (c * m) as real / v as real
    ensures 0.0 <= p * m as real
  {
    var vr := v as real;
    assert p == c as real / vr;
    assert (c * m) as real == c as real * m as real;
    assert (c as real * m as real) / vr == (c as real / vr) * m as real;
  }

  lemma MulAtMost(p: real, a: real, b: real)
    requires 0.0 <= p && a <= b
    ensures p * a <= p * b
  {
    assert p * (b - a) >= 0.0;
  }

  /**
   * One outcome's share of the expectation: its probability p = c/n times the
   * m = n - c candidates it would eliminate, that is c (n - c) / n; never more than c.
   */
  lemma OutcomeTerm(p: real, m: nat, c: nat, n: nat)
    requires 0 < n && c <= n && p == c as real / n as real && m == n - c
    ensures 0.0 <= p * m as real <= c as real
    ensures p * m as real == (c * (n - c)) as real / n as real
  {
    ScaledTerm(p, m, c, n);
    RatioIsProbability(c, n);
    MulAtMost(p, m as real, n as real);
    assert p * n as real == c as real;
  }

  lemma DivAdd(a: real, b: real, c: real, n: real)
    requires n > 0.0
    ensures (a + b + c) / n == a / n + b / n + c / n
  {
    assert (a / n + b / n + c / n) * n == a + b + c;
  }

  /** (c1 (n - c1) + c2 (n - c2) + c3 (n - c3)) / n: the closed form of an expectation over three outcomes. */
  function SplitExpectation(c1: nat, c2: nat, c3: nat, n: nat): real
    requires 0 < n
  {
    (c1 * (n - c1) + c2 * (n - c2) + c3 * (n - c3)) as real / n as real
  }

  /** The arithmetic behind `ExpectedEliminated`, for three outcomes that split n candidates. */
  lemma ExpectationArithmetic(p1: real, m1: nat, c1: nat, p2: real, m2: nat, c2: nat,
                              p3: real, m3: nat, c3: nat, n: nat, e: real)
    requires 0 < n && c1 + c2 + c3 == n
    requires p1 == c1 as real / n as real && m1 == n - c1
    requires p2 == c2 as real / n as real && m2 == n - c2
    requires p3 == c3 as real / n as real && m3 == n - c3
    requires e == p1 * m1 as real + p2 * m2 as real + p3 * m3 as real
    ensures e == SplitExpectation(c1, c2, c3, n)
    ensures 0.0 <= e <= n as real
  {
    OutcomeTerm(p1, m1, c1, n);
    OutcomeTerm(p2, m2, c2, n);
    OutcomeTerm(p3, m3, c3, n);
    var s1, s2, s3 := c1 * (n - c1), c2 * (n - c2), c3 * (n - c3);
    DivAdd(s1 as real, s2 as real, s3 as real, n as real);
  }

  /**
   * Expected number of candidates eliminated by playing `letter` at `idx`:
   * the sum, over the three outcomes, of the outcome's probability times the
   * candidates it would eliminate. With c1, c2, c3 the sizes of the outcomes
   * (which split the pool), it is (c1 (N - c1) + c2 (N - c2) + c3 (N - c3)) / N,
   * so it lies between 0 and N.
   */
  function ExpectedEliminated(pool: seq<string>, gtLength: int, letter: char, idx: nat): (e: real)
    requires idx < gtLength && |pool| > 0 && Indexable(pool, idx)
    ensures var n := |pool|;
      var c1 := Count(AtIdx(letter, idx), pool);
      var c2 := Count(WithoutLetter(letter), pool);
      var c3 := Count(ElsewhereOnly(letter, idx), pool);
      c1 + c2 + c3 == n &&
      e == SplitExpectation(c1, c2, c3, n)
    ensures 0.0 <= e <= |pool| as real
  {
    OutcomesPartition(pool, letter, idx);
    var n := |pool|;
    var c1 := Count(AtIdx(letter, idx), pool);
    var c2 := Count(WithoutLetter(letter), pool);
    var c3 := Count(ElsewhereOnly(letter, idx), pool);
    var p1 := LetterProbabilityAtIdx(pool, gtLength, letter, idx);
    var m1 := NbWordsDifferentLetterAtIdx(pool, letter, idx);
    var p2 := LetterProbabilityNotInGt(pool, letter);
    var m2 := NbWordsWithLetter(pool, letter);
    var p3 := LetterProbabilityIncorrectPosition(pool, letter, idx);
    var m3 := NbWordsWithoutLetterOrPerfectMatch(pool, letter, idx);
    var termPerfectMatch := p1 * m1 as real;
    var termNotInGt := p2 * m2 as real;
    var termIncorrectPosition := p3 * m3 as real;
    var e := termPerfectMatch + termNotInGt + termIncorrectPosition;
    ExpectationArithmetic(p1, m1, c1, p2, m2, c2, p3, m3, c3, n, e);
    e
  }

  /**
   * Three outcome sizes that split n > 0 candidates give a zero sum of
   * c (n - c) exactly when one of them is n.
   */
  lemma CertainOutcome(c1: nat, c2: nat, c3: nat, n: nat)
    requires 0 < n && c1 + c2 + c3 == n
    ensures SplitExpectation(c1, c2, c3, n) == 0.0 <==>
      c1 == n || c2 == n || c3 == n
  {
    ProductZero(c1, n);
    ProductZero(c2, n);
    ProductZero(c3, n);
    var k := c1 * (n - c1) + c2 * (n - c2) + c3 * (n - c3);
    assert k == 0 <==> c1 == n || c2 == n || c3 == n;
    RatioZero(k, n);
  }

  /** c (n - c) is never negative, and is zero exactly when c is 0 or n. */
  lemma ProductZero(c: nat, n: nat)
    requires c <= n
    ensures c * (n - c) >= 0
    ensures c * (n - c) == 0 <==> c == 0 || c == n
  {
    if 0 < c < n {
      var d := n - c;
      assert c * d >= d by {
        assert c * d == (c - 1) * d + d;
        assert (c - 1) * d >= 0;
      }
    }
  }

  lemma RatioZero(k: nat, n: nat)
    requires 0 < n
    ensures k as real / n as real == 0.0 <==> k == 0
  {
    assert (k as real / n as real) * n as real == k as real;
  }

  /** The probabilities of the three outcomes sum to 1: they form a distribution over the pool. */
  lemma ProbabilitiesSumToOne(pool: seq<string>, gtLength: int, letter: char, idx: nat)
    requires idx < gtLength && |pool| > 0 && Indexable(pool, idx)
    ensures LetterProbabilityAtIdx(pool, gtLength, letter, idx) + LetterProbabilityNotInGt(pool, letter)
            + LetterProbabilityIncorrectPosition(pool, letter, idx) == 1.0
  {
    OutcomesPartition(pool, letter, idx);
    var c1, c2, c3 := Count(AtIdx(letter, idx), pool), Count(WithoutLetter(letter), pool),
                      Count(ElsewhereOnly(letter, idx), pool);
    RatiosOfPartition(c1, c2, c3, |pool|);
  }

  lemma RatiosOfPartition(c1: nat, c2: nat, c3: nat, n: nat)
    requires 0 < n && c1 + c2 + c3 == n
    ensures c1 as real / n as real + c2 as real / n as real + c3 as real / n as real == 1.0
  {
    DivAdd(c1 as real, c2 as real, c3 as real, n as real);
  }

  /** The expectation is zero exactly when one outcome holds for the whole pool (the letter tells nothing). */
  lemma ExpectedZeroIffCertain(pool: seq<string>, gtLength: int, letter: char, idx: nat)
    requires idx < gtLength && |pool| > 0 && Indexable(pool, idx)
    ensures ExpectedEliminated(pool, gtLength, letter, idx) == 0.0 <==>
      Count(AtIdx(letter, idx), pool) == |pool| || Count(WithoutLetter(letter), pool) == |pool|
      || Count(ElsewhereOnly(letter, idx), pool) == |pool|
  {
    var n := |pool|;
    var c1, c2, c3 := Count(AtIdx(letter, idx), pool), Count(WithoutLetter(letter), pool),
                      Count(ElsewhereOnly(letter, idx), pool);
    var e := ExpectedEliminated(pool, gtLength, letter, idx);
    assert c1 + c2 + c3 == n && e == SplitExpectation(c1, c2, c3, n);
    CertainOutcome(c1, c2, c3, n);
  }

  /** The word can be scored against `pool`: its positions are in range, and a non-empty word needs candidates. */
  predicate Scorable(pool: seq<string>, gtLength: int, word: string)
  {
    |word| <= gtLength && (|word| == 0 || (|pool| > 0 && forall w :: w in pool ==> |word| <= |w|))
  }

  /** The sum of the per-position expectations over the first `n` positions of `word`. */
  function WordScorePrefix(pool: seq<string>, gtLength: int, word: string, n: nat): (s: real)
    requires n <= |word| && Scorable(pool, gtLength, word)
    ensures 0.0 <= s <= (n * |pool|) as real
  {
    if n == 0 then 0.0
    else WordScorePrefix(pool, gtLength, word, n - 1) + ExpectedEliminated(pool, gtLength, word[n - 1], n - 1)
  }

  /** A word's score: the expected eliminations of its letters, summed over its positions. */
  function ComputeWordScore(pool: seq<string>, gtLength: int, word: string): (s: real)
    requires Scorable(pool, gtLength, word)
    ensures 0.0 <= s <= (|word| * |pool|) as real
  {
    WordScorePrefix(pool, gtLength, word, |word|)
  }

  function Scores(pool: seq<string>, gtLength: int, words: seq<string>): (scores: seq<real>)
    requires forall w :: w in words ==> Scorable(pool, gtLength, w)
    ensures |scores| == |words|
    ensures forall i :: 0 <= i < |words| ==> scores[i] == ComputeWordScore(pool, gtLength, words[i])
  {
    seq(|words|, i requires 0 <= i < |words| => ComputeWordScore(pool, gtLength, words[i]))
  }

  /**
   * The word a stable descending sort of the score table puts first: a word of
   * maximal score, and the first such word in the order of `words`.
   */
  function BestGuess(pool: seq<string>, gtLength: int, words: seq<string>): (best: string)
    requires |words| > 0 && forall w :: w in words ==> Scorable(pool, gtLength, w)
    ensures exists k :: (0 <= k < |words| && words[k] == best &&
      forall j :: 0 <= j < k ==> ComputeWordScore(pool, gtLength, words[j]) < ComputeWordScore(pool, gtLength, best))
    ensures forall w :: w in words ==> ComputeWordScore(pool, gtLength, w) <= ComputeWordScore(pool, gtLength, best)
  {
    var scores := Scores(pool, gtLength, words);
    var k := FirstMaxIndex(scores);
    assert forall w :: w in words ==> exists j :: 0 <= j < |words| && words[j] == w;
    words[k]
  }

  // ---------------------------------------------------------------------------
  // The player
  // ---------------------------------------------------------------------------

  class InfoTheory {
    const gtLength: int
    /** The words of the ground truth's length; never modified. */
    const vocab: seq<string>
    /** The candidates still consistent with the feedback seen so far. */
    var potentialAnswers: seq<string>

    ghost predicate Valid()
      reads this
    {
      (forall w :: w in vocab ==> |w| == gtLength) && Subseq(potentialAnswers, vocab)
    }

    constructor (gtLength: int, vocab: seq<string>)
      ensures Valid()
      ensures this.gtLength == gtLength && this.vocab == FilterVocabOnSize(gtLength, vocab)
      ensures potentialAnswers == this.vocab
    {
      this.gtLength := gtLength;
      this.vocab := FilterVocabOnSize(gtLength, vocab);
      potentialAnswers := FilterVocabOnSize(gtLength, vocab);
      SubseqRefl(FilterVocabOnSize(gtLength, vocab));
    }

    /** Drops every candidate containing a bad letter. */
    method FilterOnBadLetter(badLetters: set<char>)
      requires Valid()
      modifies this
      ensures Valid()
      ensures potentialAnswers == WithoutBadLetters(old(potentialAnswers), badLetters)
      ensures forall w :: w in potentialAnswers <==>
        w in old(potentialAnswers) && forall c :: c in w ==> c !in badLetters
    {
      var narrowed := WithoutBadLetters(potentialAnswers, badLetters);
      SubseqTrans(narrowed, potentialAnswers, vocab);
      potentialAnswers := narrowed;
    }

    /**
     * Drops every candidate that breaks a good verdict. When some candidate is
     * left and a perfect-match verdict points past the candidates' length, the
     * player fails on the first candidate and the pool stays as it was.
     */
    method FilterOnGoodLetters(lettersInGt: set<LetterResult>) returns (r: Result<(), PlayerError>)
      requires Valid()
      modifies this
      ensures Valid()
      ensures |old(potentialAnswers)| > 0 && !PositionsFit(lettersInGt, gtLength) ==>
        r == Err(BadPosition) && potentialAnswers == old(potentialAnswers)
      ensures |old(potentialAnswers)| == 0 || PositionsFit(lettersInGt, gtLength) ==>
        r == Ok(()) && potentialAnswers == WithGoodLetters(old(potentialAnswers), lettersInGt)
    {
      if |potentialAnswers| > 0 && !PositionsFit(lettersInGt, gtLength) {
        return Err(BadPosition);
      }
      var narrowed := WithGoodLetters(potentialAnswers, lettersInGt);
      SubseqTrans(narrowed, potentialAnswers, vocab);
      potentialAnswers := narrowed;
      r := Ok(());
    }

    /**
     * Narrows the pool with the history, then returns the single candidate
     * left, or else the first word of the vocabulary with the highest score
     * against the pool.
     */
    method Guess(history: seq<GuessResult>) returns (r: Result<string, PlayerError>)
      requires Valid()
      modifies this
      ensures Valid()
      ensures forall w :: w in potentialAnswers ==> |w| == gtLength
      ensures Subseq(potentialAnswers, old(potentialAnswers))
      ensures var narrowed := WithoutBadLetters(old(potentialAnswers), BadLetters(history));
        if |narrowed| > 0 && !PositionsFit(GoodResults(history), gtLength) then
          r == Err(BadPosition) && potentialAnswers == narrowed
        else
          potentialAnswers == Refine(old(potentialAnswers), history) &&
          r == (if |potentialAnswers| == 1 then Ok(potentialAnswers[0])
                else if |vocab| == 0 then Err(EmptyVocab)
                else if |potentialAnswers| == 0 && gtLength != 0 then Err(EmptyPool)
                else Ok(BestGuess(potentialAnswers, gtLength, vocab)))
      ensures r.Ok? ==> r.value in vocab
    {
      var good := GoodResults(history);
      var bad := BadLetters(history);
      ghost var pool0 := potentialAnswers;
      FilterOnBadLetter(bad);
      ghost var pool1 := potentialAnswers;
      SubseqTrans(pool1, pool0, vocab);
      var filtered := FilterOnGoodLetters(good);
      if filtered.Err? {
        SubseqMembers(potentialAnswers, vocab);
        return Err(filtered.error);
      }
      SubseqTrans(potentialAnswers, pool1, pool0);
      SubseqTrans(potentialAnswers, pool0, vocab);
      SubseqMembers(potentialAnswers, vocab);
      if |potentialAnswers| == 1 {
        return Ok(potentialAnswers[0]);
      }
      if |vocab| == 0 {
        return Err(EmptyVocab);
      }
      if |potentialAnswers| == 0 && gtLength != 0 {
        return Err(EmptyPool);
      }
      r := Ok(BestGuess(potentialAnswers, gtLength, vocab));
    }
  }
}
