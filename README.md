# SUTOM: feedback engine and information-theoretic players

SUTOM is a fixed-length word-guessing game. A hidden ground-truth word is
guessed repeatedly. Every guess receives one verdict per position:
`PerfectMatch`, `FoundButWrongPosition` or `NotFound`, with repeated letters
credited no more often than the ground truth holds them.

This project models two parts of the game in Dafny and proves properties of
the models.

- **The feedback engine** (`Sutom`, from `src/sutom.py`). `SutomFSM` holds the
  ground truth and an append-only history. `Guess` scores a guess in two
  passes over arrays that are consumed in place:
  1. exact matches are marked and consumed;
  2. the positions left open are scanned left to right against a counter of
     the unconsumed ground-truth letters.

  The method is proved equal to a declarative definition, `Score`. At a
  position i that is not an exact match, the verdict is
  `FoundButWrongPosition` exactly when fewer unmatched copies of the letter stand to the left of i than the ground truth
  has unconsumed copies of it.
- **The canonical player** (`InfoTheoreticPlayer`, from
  `src/info_theoretic_player.py`). It derives good verdicts and bad letters
  from the history, then narrows its pool of candidates with two filters. If
  one candidate is left, it returns it. Otherwise it returns the first word of
  its length-filtered vocabulary with the highest score. A word's score is the
  sum, over its positions, of the expected number of candidates its letter
  there would eliminate. Scores are exact `real`s. With c1, c2 and c3 the
  numbers of candidates for which the letter is exact, absent or misplaced,
  the expectation is (c1 (N - c1) + c2 (N - c2) + c3 (N - c3)) / N.
- **Two earlier versions of the player**, modelled as variants that reuse the
  canonical definitions. Each divergence is stated either as its own lemma
  or in that player's `Guess` contract:
  - `InfoTheoreticPlayer2`, from `src/info_theoretic_player_2.py`:
    - the misplaced-letter probability is divided by the vocabulary size
      (`ProbabilitiesDoNotSumToOne`, `ExpectedEliminated2Discount`,
      `SameGuessAsCanonical`);
    - the pool is stored only once both filters have run (the contract of
      `InfoTheory2.Guess`: on `BadPosition` the pool is unchanged).
  - `InfoTheoreticalPlayer`, from `src/info_theoretical_player.py`:
    - good letters are checked only for presence, not position
      (`RefineWithinRefineLetters`, `PositionalCheckMatters`);
    - the vocabulary is overwritten with the pool, so the player ranks only
      the remaining candidates (the contract of `InfoTheoretical.Guess`);
    - there is no single-candidate shortcut (`SingleCandidateChosen`).

Supporting modules:
- `Wrappers`: `Option`, `Result`.
- `Seqs`: order-preserving `Filter`, `Count`, the `Subseq` relation, and
  `FirstMaxIndex`, the index of the element a stable descending sort puts
  first.

The source raises exceptions in several places. The model turns most of them
into error values:
- `Guess` of the engine returns `Err(LengthMismatch)` instead of failing its
  assertion.
- The players return a `PlayerError`:
  - `BadPosition` for the `IndexError` of the good-letter filter;
  - `EmptyPool` for the `ZeroDivisionError` of a probability over an empty pool;
  - `EmptyVocab` for the `IndexError` of an empty ranking.

The remaining assertions become preconditions:
- `how_many_guess_left_for` asserts that the letter occurs in the ground truth
  (`src/sutom.py:68`); `HowManyGuessLeftFor` requires it.
- The probability helpers assert `0 <= idx < gt_length`; the helpers require it.

An empty pool is not an error by itself. The players fail only when some
non-empty word must be scored against it; when the vocabulary is empty, they
fail on the empty ranking instead.

The model follows the code where it differs from its comments or from the
canonical player:
- `how_many_guess_left_for` subtracts the results that are *not* exact
  matches, although its comment says the opposite. The model keeps what the
  code does, and `GuessesLeftCanBeNegative` shows the count can be negative.
- The second and the oldest players do not follow the canonical player
  wherever the two differ. Each difference is stated in a lemma or in that
  player's `Guess` contract, as listed above. The oldest player's late removal
  of the good letters from the `NotFound` letters is stated in the contract
  of `OldBadLetters`.

## Model

| member | source | states |
|---|---|---|
| Sutom.SutomFSM.constructor | src/sutom.py:26-36 | the history starts empty; the ground truth is the given word |
| Sutom.SutomFSM.GtLetters | src/sutom.py:38-40 | the letters of the ground truth, one per position, in order |
| Sutom.SutomFSM.PastGuesses | src/sutom.py:42-44 | the guesses of the history, oldest first, one per record |
| Sutom.SutomFSM.StateOfPrediction | src/sutom.py:46-62 | one pair per ground-truth position holding its letter; the status is `PerfectMatch` iff some past record has an exact match at that position (equivalently, some past guess has the ground-truth letter there), else `NotFound` |
| Sutom.SutomFSM.HowManyGuessLeftFor | src/sutom.py:64-83 | requires the letter to occur in the ground truth; returns its number of copies there minus the given results for it that are not exact matches |
| Sutom.GuessesLeftOnScore | src/sutom.py:64-83 | on a complete scoring, the subtracted count is the guess's copies of the letter minus its exact matches |
| Sutom.GuessesLeftCanBeNegative | src/sutom.py:64-83 | ground truth "abc", guess "baa": the count for 'a' is -1 |
| Sutom.SutomFSM.Guess | src/sutom.py:85-148 | a guess of the wrong length gives `Err(LengthMismatch)` and leaves the history unchanged; otherwise appends exactly one record, holding the guess and `Score`, keeps the earlier records, and extends `PastGuesses` by the guess; the history stays consistent with the ground truth |
| Sutom.StatusAt | src/sutom.py:98-140 | the verdict at one position: `PerfectMatch` exactly when guess and ground truth agree there; a verdict other than `NotFound` names a letter of the ground truth |
| Sutom.Score | src/sutom.py:90-146 | one verdict per ground-truth position; by definition the verdict at i holds guess[i], i and `StatusAt`'s status |
| Sutom.ScoreGuess | src/sutom.py:90-146 | the two passes over consumed letter arrays produce exactly `Score`: one verdict per position i, with position i and letter guess[i], none left unset |
| Sutom.MarkPerfectMatches | src/sutom.py:98-110 | after the first pass, exactly the positions where guess and ground truth agree hold a `PerfectMatch`, and their letters are consumed from both lists; every other entry is untouched |
| Sutom.PresentAfterConsumption | src/sutom.py:112-116 | the counter of unconsumed ground-truth letters holds, for each letter, its copies not at an exact match |
| Sutom.AvailableStep | src/sutom.py:118-140 | at an open position the letter is credited iff the counter still holds a copy of it, and the counter then loses exactly that copy |
| Sutom.CreditAt | src/sutom.py:118-142 | one step of the second pass sets the verdict at i to the verdict `Score` gives there, changes no other position, and leaves the counter for position i + 1 |
| Sutom.CreditRemaining | src/sutom.py:118-142 | after the second pass every position holds the verdict `Score` gives there |
| Sutom.ScoreOfGroundTruth | src/sutom.py:100-110 | scoring the ground truth against itself gives `PerfectMatch` everywhere |
| Sutom.MultiplicityConservation | src/sutom.py:112-140 | for every letter, the verdicts crediting it (exact or misplaced) number min(copies in guess, copies in ground truth), never more than the ground truth holds |
| Sutom.LeftmostCrediting | src/sutom.py:118-140 | among non-exact positions holding the same letter, a credited one has only credited ones of that letter to its left, and a `NotFound` one only `NotFound` ones to its right |
| Sutom.NotFoundLetterCreditedElsewhere | src/sutom.py:135-140 | a `NotFound` letter that does occur in the ground truth is credited at another position of the same guess |
| Sutom.ScenarioMelonLemon | src/sutom.py:98-140 | ground truth "melon", guess "lemon": misplaced, exact, misplaced, exact, exact |
| Sutom.ScenarioAppleHappy | src/sutom.py:98-140 | ground truth "apple", guess "happy": absent, misplaced, exact, misplaced, absent |
| InfoTheoreticPlayer.FilterVocabOnSize | src/info_theoretic_player.py:12-14 | exactly the words of the ground truth's length, each as often as in the input, in the input order (also src/info_theoretic_player_2.py:13-14 and src/info_theoretical_player.py:10-11) |
| InfoTheoreticPlayer.Flatten | src/info_theoretic_player.py:17-21 | a verdict is in the flattened history iff it is in some record |
| InfoTheoreticPlayer.GoodResults | src/info_theoretic_player.py:73-95 | exactly the verdicts of some record of the history whose status is not `NotFound` |
| InfoTheoreticPlayer.GoodLetters | src/info_theoretic_player.py:73-95 | every letter that some record credits, exact or misplaced, and no other |
| InfoTheoreticPlayer.BadResults | src/info_theoretic_player.py:97-125 | exactly the `NotFound` verdicts of some record of the history whose letter is not a good letter |
| InfoTheoreticPlayer.BadLetters | src/info_theoretic_player.py:97-125 | disjoint from the good letters; a bad letter is exactly a letter with a `NotFound` verdict that no good verdict names |
| InfoTheoreticPlayer.WithoutBadLetters | src/info_theoretic_player.py:133-138 | keeps exactly the words containing no bad letter, as a sub-sequence of the pool |
| InfoTheoreticPlayer.WithGoodLetters | src/info_theoretic_player.py:157-171 | keeps exactly the words meeting every good verdict (the letter at its position for an exact match, the letter anywhere otherwise), as a sub-sequence of the pool |
| InfoTheoreticPlayer.Refine | src/info_theoretic_player.py:45-53 | the narrowed pool is no longer than the pool and holds only words of it |
| InfoTheoreticPlayer.RefineCharacterisation | src/info_theoretic_player.py:45-53 | the narrowed pool is the old pool minus exactly the words with a bad letter or breaking a good verdict, and a sub-sequence of it |
| InfoTheoreticPlayer.RefineIdempotent | src/info_theoretic_player.py:45-53 | narrowing again with the same history changes nothing |
| InfoTheoreticPlayer.GoodResultHolds | src/info_theoretic_player.py:147-171 | the ground truth meets every good verdict of a history the engine produced for it, and every exact-match position lies inside it |
| InfoTheoreticPlayer.BadLetterAbsent | src/info_theoretic_player.py:97-125 | a bad letter of a history the engine produced does not occur in the ground truth |
| InfoTheoreticPlayer.GroundTruthSurvives | src/info_theoretic_player.py:45-53 | a pool holding the ground truth still holds it after narrowing with a history the engine produced for it |
| InfoTheoreticPlayer.InfoTheory.constructor | src/info_theoretic_player.py:25-29 | the vocabulary is the length-filtered input and the pool starts as the vocabulary |
| InfoTheoreticPlayer.InfoTheory.FilterOnBadLetter | src/info_theoretic_player.py:127-138 | the new pool is the old one minus exactly the words holding a bad letter; the pool stays a sub-sequence of the vocabulary |
| InfoTheoreticPlayer.InfoTheory.FilterOnGoodLetters | src/info_theoretic_player.py:147-171 | the pool stays a sub-sequence of the vocabulary; on a non-empty pool with an exact-match position past the word length, fails with `BadPosition` and keeps the pool; otherwise the pool keeps exactly the words meeting every good verdict |
| InfoTheoreticPlayer.InfoTheory.Guess | src/info_theoretic_player.py:34-71 | the pool only shrinks and stays a sub-sequence of the fixed vocabulary; on `BadPosition` it is left bad-filtered; otherwise it is the narrowed pool, and the result is its single word, or `EmptyVocab`, or `EmptyPool`, or the first best-scoring vocabulary word; a word returned is a vocabulary word |
| InfoTheoreticPlayer.LetterProbabilityAtIdx | src/info_theoretic_player.py:192-217 | requires a non-empty pool and a position below the ground-truth length; the result is in [0, 1] |
| InfoTheoreticPlayer.NbWordsDifferentLetterAtIdx | src/info_theoretic_player.py:219-223 | the pool size minus the candidates with the letter at the position |
| InfoTheoreticPlayer.LetterProbabilityNotInGt | src/info_theoretic_player.py:228-236 | requires a non-empty pool; the result is in [0, 1] |
| InfoTheoreticPlayer.NbWordsWithLetter | src/info_theoretic_player.py:238-240 | the pool size minus the candidates without the letter |
| InfoTheoreticPlayer.LetterProbabilityIncorrectPosition | src/info_theoretic_player.py:245-253 | requires a non-empty pool; the result is in [0, 1] |
| InfoTheoreticPlayer.NbWordsWithoutLetterOrPerfectMatch | src/info_theoretic_player.py:256-262 | the pool size minus the candidates holding the letter elsewhere than at the position |
| InfoTheoreticPlayer.OutcomesPartition | src/info_theoretic_player.py:264-291 | the exact, absent and misplaced outcomes split the pool: c1 + c2 + c3 = N |
| InfoTheoreticPlayer.ProbabilitiesSumToOne | src/info_theoretic_player.py:192-253 | the three outcome probabilities sum to 1 |
| InfoTheoreticPlayer.ExpectedEliminated | src/info_theoretic_player.py:264-291 | the expectation equals (c1 (N - c1) + c2 (N - c2) + c3 (N - c3)) / N and lies in [0, N] |
| InfoTheoreticPlayer.ExpectedZeroIffCertain | src/info_theoretic_player.py:264-291 | the expectation is 0 iff one outcome holds for the whole pool |
| InfoTheoreticPlayer.WordScorePrefix | src/info_theoretic_player.py:293-299 | the sum of the expectations of the first n positions lies in [0, n N] |
| InfoTheoreticPlayer.ComputeWordScore | src/info_theoretic_player.py:293-299 | a word's score lies in [0, word length times N] |
| InfoTheoreticPlayer.Scores | src/info_theoretic_player.py:63 | one score per vocabulary word, in vocabulary order |
| InfoTheoreticPlayer.BestGuess | src/info_theoretic_player.py:61-71 | a word of the list whose score no word exceeds, and every earlier word scores strictly less |
| Seqs.FirstMaxIndex | src/info_theoretic_player.py:65-71 | the index of the first maximal score: what the stable descending sort puts first |
| InfoTheoreticPlayer2.LetterProbabilityIncorrectPosition2 | src/info_theoretic_player_2.py:190-198 | the misplaced count divided by the vocabulary size: non-negative, at most 1 while the pool is no larger than the vocabulary, equal to the canonical term when the sizes agree |
| InfoTheoreticPlayer2.ProbabilitiesDoNotSumToOne | src/info_theoretic_player_2.py:190-198 | pool ["ab", "ba"], vocabulary ["ab", "ba", "cc"], letter 'b' at 0: the three probabilities sum to 5/6 |
| InfoTheoreticPlayer2.ExpectedEliminated2 | src/info_theoretic_player_2.py:209-228 | the canonical expectation minus c3 (N - c3) / N plus c3 (N - c3) / V, for V the vocabulary size; never negative |
| InfoTheoreticPlayer2.ExpectedEliminated2Discount | src/info_theoretic_player_2.py:190-228 | with a pool no larger than the vocabulary, at most the canonical expectation; equal when the sizes agree; strictly less when the vocabulary is larger and the misplaced outcome is possible but not certain |
| InfoTheoreticPlayer2.WordScorePrefix2 | src/info_theoretic_player_2.py:230-240 | the partial sum is non-negative and relates to the canonical partial sum as each term does |
| InfoTheoreticPlayer2.ComputeWordScore2 | src/info_theoretic_player_2.py:230-240 | a word's score is non-negative, at most the canonical score while the pool is no larger than the vocabulary, and equal to it when the sizes agree |
| InfoTheoreticPlayer2.Scores2 | src/info_theoretic_player_2.py:114 | one score per vocabulary word, in vocabulary order |
| InfoTheoreticPlayer2.BestGuess2 | src/info_theoretic_player_2.py:113-124 | the first vocabulary word of maximal score under this player's scoring |
| InfoTheoreticPlayer2.SameGuessAsCanonical | src/info_theoretic_player_2.py:113-124 | with a pool as large as the vocabulary, this player ranks the same word first as the canonical one |
| InfoTheoreticPlayer2.InfoTheory2.constructor | src/info_theoretic_player_2.py:23-30 | the vocabulary is the length-filtered input and the pool starts as the vocabulary |
| InfoTheoreticPlayer2.InfoTheory2.Guess | src/info_theoretic_player_2.py:32-124 | on `BadPosition` the pool is unchanged; otherwise the stored pool is the narrowed pool, and the result is its single word, or `EmptyVocab`, or `EmptyPool`, or the first best word under this player's scoring; the pool only shrinks within the vocabulary |
| InfoTheoreticalPlayer.OldBadLetters | src/info_theoretical_player.py:53-73 | removing the good letters after collecting the `NotFound` letters gives the canonical bad letters |
| InfoTheoreticalPlayer.RefineLetters | src/info_theoretical_player.py:80-94 | the narrowed pool is the old pool, in order, minus exactly the words holding a bad letter or lacking a good letter |
| InfoTheoreticalPlayer.WithAllLetters | src/info_theoretical_player.py:90-94 | keeps exactly the words containing every good letter, as a sub-sequence |
| InfoTheoreticalPlayer.GoodVerdictsGiveGoodLetters | src/info_theoretical_player.py:39-48 | a word meeting every good verdict contains every good letter |
| InfoTheoreticalPlayer.RefineWithinRefineLetters | src/info_theoretical_player.py:80-94 | the canonical narrowed pool is a sub-sequence of this player's narrowed pool |
| InfoTheoreticalPlayer.PositionalCheckMatters | src/info_theoretical_player.py:90-94 | pool ["ac", "ca"], one guess "ax" with 'a' exact at 0 and 'x' absent: this player keeps "ca", the canonical player drops it |
| InfoTheoreticalPlayer.LetterRefineKeepsGroundTruth | src/info_theoretical_player.py:80-94 | this player's narrowing keeps the ground truth when the engine produced the history |
| InfoTheoreticalPlayer.RefineLettersIdempotent | src/info_theoretical_player.py:80-102 | narrowing again with the same history changes nothing |
| InfoTheoreticalPlayer.SingleCandidateChosen | src/info_theoretical_player.py:104-117 | with one candidate left, the ranking picks it, so the missing shortcut changes nothing |
| InfoTheoreticalPlayer.InfoTheoretical.constructor | src/info_theoretical_player.py:20-27 | the vocabulary is the length-filtered input and the pool equals it |
| InfoTheoreticalPlayer.InfoTheoretical.Guess | src/info_theoretical_player.py:29-117 | the vocabulary and the pool both become the letter-narrowed old vocabulary, a sub-sequence of it; an empty pool gives `EmptyVocab`, otherwise the first best-scoring pool word, scored with the canonical expectation over the pool; a word returned is a candidate |

## Findings

| source | as written | input that shows it | evidently intended | confidence | as-written member | corrected member |
|---|---|---|---|---|---|---|
| src/info_theoretic_player_2.py:197 | the misplaced-letter probability divides by the vocabulary size | pool ["ab", "ba"], vocabulary ["ab", "ba", "cc"], letter 'b' at position 0: the probabilities sum to 5/6 | divide by the pool size, as the other two terms do and as src/info_theoretic_player.py:252 does | high, not executed | InfoTheoreticPlayer2.ProbabilitiesDoNotSumToOne | InfoTheoreticPlayer.ProbabilitiesSumToOne |

## Left out

- `save_scores` in all three players, and the `mkdir` of the save directory: file output only.
- The `rich` printing and the `debug` branches: console output only.
- `lru_cache` and the `guess_nb` argument: the helpers are pure functions of the pool, the letter and the position. A stale cache entry is not modelled. That case arises only if `guess` is called twice with histories of the same length.
- Floating point: scores and probabilities are exact reals. A float rounding that could change which word ranks first is not modelled.
- The dictionary built from the scores drops repeated vocabulary words and keeps the first position of each. The model ranks the vocabulary list itself. Either way the first word of maximal score wins.
- The `len(letter) == 1` assertions are discharged by the `char` type. The `0 <= idx < gt_length` assertions become preconditions of the probability helpers.
- The `ValueError` of the second pass in `src/sutom.py:141-142` cannot be raised: an open position always still holds its guess letter. The model has no branch for it.
- The `assert all(...)` at `src/sutom.py:145` is the postcondition of `ScoreGuess`.
- `IndexError` when scoring positions past a candidate's length is excluded by the helpers' `Indexable` preconditions. Pool and vocabulary words always have the ground-truth length, so it cannot arise from `Guess`.
- Sutom.SutomFSM.HowManyGuessLeftFor: the assertion that the letter occurs in the ground truth (`src/sutom.py:68`) is a precondition, so the model does not capture the `AssertionError` raised for another letter.
- InfoTheoreticPlayer.InfoTheory.FilterOnGoodLetters: the `IndexError` is modelled as `Err(BadPosition)` when some exact-match position is at or past the ground-truth length. The check uses `PositionsFit` against that length, which is exact only because all pool words have it.
- Verdict positions are natural numbers. In the source, a hand-built history with a negative position would index from the end of a word in the good-letter filter (`src/info_theoretic_player.py:157-165`). The engine never produces such a position, so the model does not express it.
- `src/player.py`, the game loops, the human player, vocabulary loading and the corpus scripts are not part of this model.
- The canonical player imports its engine types from a module that is not part of this model. The types of `src/sutom.py:6-22` are used instead.
