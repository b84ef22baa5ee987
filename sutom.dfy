/**
 * The SUTOM feedback engine: a hidden ground-truth word, a history of scored
 * guesses, and the two-pass scoring of a guess (exact matches first, then
 * left-to-right crediting of misplaced letters against the letters the exact
 * matches did not consume).
 */
module Sutom {
  import opened Wrappers

  datatype LetterStatus = PerfectMatch | FoundButWrongPosition | NotFound

  /** The verdict for one position of a guess; positions are 0-indexed. */
  datatype LetterResult = LetterResult(letter: char, position: nat, status: LetterStatus)

  /** A guess together with its verdicts, one per position, in position order. */
  datatype GuessResult = GuessResult(guess: string, results: seq<LetterResult>)

  /** Why a guess was refused before being scored. */
  datatype GuessError = LengthMismatch

  function Min(x: int, y: int): int { if x <= y then x else y }

  // ---------------------------------------------------------------------------
  // Declarative specification of a scoring
  // ---------------------------------------------------------------------------

  /**
   * How many positions below `n` hold `c` in `a` while `a` and `b` differ there.
   * With `a` the ground truth: the copies of `c` an exact match did not consume.
   * With `a` the guess: the occurrences of `c` left for the second pass.
   */
  function UnmatchedCount(a: string, b: string, n: nat, c: char): nat
    requires n <= |a| && n <= |b|
  {
    if n == 0 then 0
    else UnmatchedCount(a, b, n - 1, c) + (if a[n - 1] != b[n - 1] && a[n - 1] == c then 1 else 0)
  }

  /**
   * The verdict at position `i`: an exact match, or else a misplaced letter
   * exactly when fewer unmatched occurrences of the same letter stand to its
   * left than the ground truth has unconsumed copies of it.
   */
  function StatusAt(gt: string, guess: string, i: nat): (st: LetterStatus)
    requires |guess| == |gt| && i < |gt|
    ensures st == PerfectMatch <==> guess[i] == gt[i]
    ensures st != NotFound ==> guess[i] in gt
  {
    if guess[i] == gt[i] then PerfectMatch
    else if UnmatchedCount(guess, gt, i, guess[i]) < UnmatchedCount(gt, guess, |gt|, guess[i]) then
      UnmatchedLetterOccurs(gt, guess, |gt|, guess[i]);
      FoundButWrongPosition
    else NotFound
  }

  /** The verdicts for `guess` against `gt`, one per position. */
  function Score(gt: string, guess: string): (s: seq<LetterResult>)
    requires |guess| == |gt|
    ensures |s| == |gt|
  {
    seq(|gt|, i requires 0 <= i < |gt| => LetterResult(guess[i], i, StatusAt(gt, guess, i)))
  }

  /** Every record of `h` is a guess of the right length scored against `gt`. */
  ghost predicate ConsistentWith(h: seq<GuessResult>, gt: string)
  {
    forall k :: 0 <= k < |h| ==> |h[k].guess| == |gt| && h[k].results == Score(gt, h[k].guess)
  }

  // ---------------------------------------------------------------------------
  // Counting
  // ---------------------------------------------------------------------------

  /** How many verdicts for letter `c` are not `NotFound`. */
  function CreditedCount(rs: seq<LetterResult>, c: char): nat
  {
    if rs == [] then 0
    else CreditedCount(rs[..|rs| - 1], c)
         + (if rs[|rs| - 1].letter == c && rs[|rs| - 1].status != NotFound then 1 else 0)
  }

  /** How many verdicts for letter `c` are not `PerfectMatch`. */
  function NonPerfectCount(rs: seq<LetterResult>, c: char): nat
  {
    if rs == [] then 0
    else NonPerfectCount(rs[..|rs| - 1], c)
         + (if rs[|rs| - 1].letter == c && rs[|rs| - 1].status != PerfectMatch then 1 else 0)
  }

  /** How many positions below `n` hold `c` in both words. */
  function MatchedCount(a: string, b: string, n: nat, c: char): nat
    requires n <= |a| && n <= |b|
  {
    if n == 0 then 0
    else MatchedCount(a, b, n - 1, c) + (if a[n - 1] == c && b[n - 1] == c then 1 else 0)
  }

  lemma {:induction false} MatchedSymmetric(a: string, b: string, n: nat, c: char)
    requires n <= |a| && n <= |b|
    ensures MatchedCount(a, b, n, c) == MatchedCount(b, a, n, c)
  {
    if n > 0 {
      MatchedSymmetric(a, b, n - 1, c);
    }
  }

  lemma PrefixCount(s: seq<char>, n: nat, c: char)
    requires 0 < n <= |s|
    ensures multiset(s[..n])[c] == multiset(s[..n - 1])[c] + (if s[n - 1] == c then 1 else 0)
  {
    assert s[..n] == s[..n - 1] + [s[n - 1]];
  }

  /** The copies of `c` in a prefix are the matched ones plus the unmatched ones. */
  lemma {:induction false} LettersSplit(a: string, b: string, n: nat, c: char)
    requires n <= |a| && n <= |b|
    ensures multiset(a[..n])[c] == MatchedCount(a, b, n, c) + UnmatchedCount(a, b, n, c)
  {
    if n > 0 {
      LettersSplit(a, b, n - 1, c);
      PrefixCount(a, n, c);
    }
  }

  lemma {:induction false} UnmatchedLetterOccurs(a: string, b: string, n: nat, c: char)
    requires n <= |a| && n <= |b|
    requires UnmatchedCount(a, b, n, c) > 0
    ensures c in a
  {
    if a[n - 1] != b[n - 1] && a[n - 1] == c {
    } else {
      UnmatchedLetterOccurs(a, b, n - 1, c);
    }
  }

  lemma {:induction false} UnmatchedMonotone(a: string, b: string, n: nat, m: nat, c: char)
    requires n <= m <= |a| && m <= |b|
    ensures UnmatchedCount(a, b, n, c) <= UnmatchedCount(a, b, m, c)
    decreases m - n
  {
    if n < m {
      UnmatchedMonotone(a, b, n, m - 1, c);
    }
  }

  /** After the first `n` positions, the credited verdicts for `c` are its exact matches plus as
      many unmatched occurrences as the unconsumed ground-truth copies allow. */
  lemma {:induction false} CreditedPrefix(gt: string, guess: string, n: nat, c: char)
    requires |guess| == |gt| && n <= |gt|
    ensures CreditedCount(Score(gt, guess)[..n], c)
      == MatchedCount(guess, gt, n, c) + Min(UnmatchedCount(guess, gt, n, c), UnmatchedCount(gt, guess, |gt|, c))
  {
    if n > 0 {
      CreditedPrefix(gt, guess, n - 1, c);
      var rs := Score(gt, guess);
      assert rs[..n][..n - 1] == rs[..n - 1];
    }
  }

  lemma {:induction false} NonPerfectPrefix(gt: string, guess: string, n: nat, c: char)
    requires |guess| == |gt| && n <= |gt|
    ensures NonPerfectCount(Score(gt, guess)[..n], c) == UnmatchedCount(guess, gt, n, c)
  {
    if n > 0 {
      NonPerfectPrefix(gt, guess, n - 1, c);
      var rs := Score(gt, guess);
      assert rs[..n][..n - 1] == rs[..n - 1];
    }
  }

  lemma {:induction false} CreditedWitness(rs: seq<LetterResult>, c: char)
    requires CreditedCount(rs, c) > 0
    ensures exists k :: 0 <= k < |rs| && rs[k].letter == c && rs[k].status != NotFound
  {
    var last := rs[|rs| - 1];
    if !(last.letter == c && last.status != NotFound) {
      CreditedWitness(rs[..|rs| - 1], c);
      var k :| 0 <= k < |rs| - 1 && rs[..|rs| - 1][k].letter == c && rs[..|rs| - 1][k].status != NotFound;
      assert rs[k] == rs[..|rs| - 1][k];
    }
  }

  // ---------------------------------------------------------------------------
  // Properties of a scoring
  // ---------------------------------------------------------------------------

  /** Guessing the ground truth itself gives an exact match everywhere. */
  lemma ScoreOfGroundTruth(gt: string)
    ensures forall i :: 0 <= i < |gt| ==> Score(gt, gt)[i].status == PerfectMatch
  {
  }

  /**
   * Multiplicity conservation: for every letter, the verdicts that credit it
   * (exact or misplaced) number min(copies in the guess, copies in the ground
   * truth), so never more than the ground truth holds.
   */
  lemma {:induction false} MultiplicityConservation(gt: string, guess: string, c: char)
    requires |guess| == |gt|
    ensures CreditedCount(Score(gt, guess), c) == Min(multiset(guess)[c], multiset(gt)[c])
    ensures CreditedCount(Score(gt, guess), c) <= multiset(gt)[c]
  {
    var n := |gt|;
    CreditedPrefix(gt, guess, n, c);
    assert Score(gt, guess)[..n] == Score(gt, guess);
    LettersSplit(guess, gt, n, c);
    LettersSplit(gt, guess, n, c);
    MatchedSymmetric(guess, gt, n, c);
    assert guess[..n] == guess;
    assert gt[..n] == gt;
  }

  /**
   * Leftmost crediting: among the positions that are not exact matches and
   * hold the same letter, a credited position has only credited positions of
   * that letter to its left, and a `NotFound` one only `NotFound` ones to its right.
   */
  lemma {:induction false} LeftmostCrediting(gt: string, guess: string, i: nat, j: nat)
    requires |guess| == |gt| && i < j < |gt|
    requires guess[i] == guess[j] && guess[i] != gt[i] && guess[j] != gt[j]
    ensures StatusAt(gt, guess, j) == FoundButWrongPosition ==> StatusAt(gt, guess, i) == FoundButWrongPosition
    ensures StatusAt(gt, guess, i) == NotFound ==> StatusAt(gt, guess, j) == NotFound
  {
    UnmatchedMonotone(guess, gt, i + 1, j, guess[i]);
  }

  /** A `NotFound` letter that does occur in the ground truth is credited at another position of the same guess. */
  lemma {:induction false} NotFoundLetterCreditedElsewhere(gt: string, guess: string, i: nat)
    requires |guess| == |gt| && i < |gt|
    requires StatusAt(gt, guess, i) == NotFound && guess[i] in gt
    ensures exists j :: 0 <= j < |gt| && guess[j] == guess[i] && StatusAt(gt, guess, j) != NotFound
  {
    var c := guess[i];
    MultiplicityConservation(gt, guess, c);
    assert c in multiset(guess) && c in multiset(gt);
    CreditedWitness(Score(gt, guess), c);
  }

  /** Scenario: ground truth "melon", guess "lemon". */
  lemma ScenarioMelonLemon()
    ensures Score("melon", "lemon")[0].status == FoundButWrongPosition
    ensures Score("melon", "lemon")[1].status == PerfectMatch
    ensures Score("melon", "lemon")[2].status == FoundButWrongPosition
    ensures Score("melon", "lemon")[3].status == PerfectMatch
    ensures Score("melon", "lemon")[4].status == PerfectMatch
  {
    assert UnmatchedCount("melon", "lemon", 2, 'l') == 0;
    assert UnmatchedCount("melon", "lemon", 3, 'l') == 1;
    assert UnmatchedCount("melon", "lemon", 5, 'l') == 1;
    assert UnmatchedCount("melon", "lemon", 1, 'm') == 1;
    assert UnmatchedCount("melon", "lemon", 5, 'm') == 1;
    assert UnmatchedCount("lemon", "melon", 2, 'm') == 0;
  }

  /** Scenario: ground truth "apple", guess "happy"; only the first unmatched 'p' is credited. */
  lemma ScenarioAppleHappy()
    ensures Score("apple", "happy")[0].status == NotFound
    ensures Score("apple", "happy")[1].status == FoundButWrongPosition
    ensures Score("apple", "happy")[2].status == PerfectMatch
    ensures Score("apple", "happy")[3].status == FoundButWrongPosition
    ensures Score("apple", "happy")[4].status == NotFound
  {
    assert UnmatchedCount("apple", "happy", 3, 'h') == 0;
    assert UnmatchedCount("apple", "happy", 5, 'h') == 0;
    assert UnmatchedCount("apple", "happy", 1, 'a') == 1;
    assert UnmatchedCount("apple", "happy", 3, 'a') == 1;
    assert UnmatchedCount("apple", "happy", 5, 'a') == 1;
    assert UnmatchedCount("apple", "happy", 2, 'p') == 1;
    assert UnmatchedCount("apple", "happy", 4, 'p') == 1;
    assert UnmatchedCount("apple", "happy", 5, 'p') == 1;
    assert UnmatchedCount("happy", "apple", 3, 'p') == 0;
    assert UnmatchedCount("happy", "apple", 4, 'y') == 0;
    assert UnmatchedCount("apple", "happy", 3, 'y') == 0;
    assert UnmatchedCount("apple", "happy", 5, 'y') == 0;
  }

  /**
   * `how_many_guess_left_for` applied to a complete scoring: the copies of `c`
   * in the ground truth minus the guess's occurrences of `c` that were not exact
   * matches (misplaced and absent ones alike).
   */
  lemma {:induction false} GuessesLeftOnScore(gt: string, guess: string, c: char)
    requires |guess| == |gt|
    ensures NonPerfectCount(Score(gt, guess), c) == multiset(guess)[c] - MatchedCount(guess, gt, |gt|, c)
  {
    var n := |gt|;
    NonPerfectPrefix(gt, guess, n, c);
    assert Score(gt, guess)[..n] == Score(gt, guess);
    LettersSplit(guess, gt, n, c);
    assert guess[..n] == guess;
  }

  /** The count `how_many_guess_left_for` returns can be negative. */
  lemma GuessesLeftCanBeNegative()
    ensures multiset("abc")['a'] - NonPerfectCount(Score("abc", "baa"), 'a') == -1
  {
    GuessesLeftOnScore("abc", "baa", 'a');
    assert "baa"[..3] == "baa";
    assert multiset("baa")['a'] == 2 by { assert "baa" == ['b'] + ['a'] + ['a']; }
    assert MatchedCount("baa", "abc", 3, 'a') == 0;
  }

  // ---------------------------------------------------------------------------
  // The imperative engine
  // ---------------------------------------------------------------------------

  /** The letters still present in a list whose consumed entries were set to `None`. */
  function Present(s: seq<Option<char>>): seq<char>
  {
    if s == [] then []
    else Present(s[..|s| - 1]) + (if s[|s| - 1].Some? then [s[|s| - 1].value] else [])
  }

  lemma {:induction false} PresentAfterConsumption(gt: string, guess: string, s: seq<Option<char>>, m: nat, c: char)
    requires |guess| == |gt| && m <= |gt| && |s| == m
    requires forall k :: 0 <= k < m ==> s[k] == (if guess[k] == gt[k] then None else Some(gt[k]))
    ensures multiset(Present(s))[c] == UnmatchedCount(gt, guess, m, c)
  {
    if m > 0 {
      PresentAfterConsumption(gt, guess, s[..m - 1], m - 1, c);
      var tail := if s[m - 1].Some? then [s[m - 1].value] else [];
      assert Present(s) == Present(s[..m - 1]) + tail;
      assert multiset(Present(s)) == multiset(Present(s[..m - 1])) + multiset(tail);
    }
  }

  /** The unconsumed ground-truth copies of `c` not yet claimed by the first `i` guess positions. */
  function Available(gt: string, guess: string, i: nat, c: char): nat
    requires |guess| == |gt| && i <= |gt|
  {
    var u := UnmatchedCount(gt, guess, |gt|, c);
    var g := UnmatchedCount(guess, gt, i, c);
    if g < u then u - g else 0
  }

  /** How the counter of step 2 evolves at position `i`, and what it decides there. */
  lemma AvailableStep(gt: string, guess: string, i: nat, c: char)
    requires |guess| == |gt| && i < |gt|
    ensures guess[i] != gt[i] && c == guess[i] ==>
      (StatusAt(gt, guess, i) == FoundButWrongPosition <==> Available(gt, guess, i, c) > 0)
    ensures Available(gt, guess, i + 1, c) ==
      (if guess[i] != gt[i] && c == guess[i] && Available(gt, guess, i, c) > 0
       then Available(gt, guess, i, c) - 1 else Available(gt, guess, i, c))
  {
  }

  /** An index of `h` at which position `idx` was scored an exact match. */
  ghost predicate PerfectInHistory(h: seq<GuessResult>, idx: nat)
  {
    exists k :: 0 <= k < |h| && idx < |h[k].results| && h[k].results[idx].status == PerfectMatch
  }

  /**
   * Step 1 of a scoring: record every exact match and consume its letter from
   * both letter lists (the entry becomes `None`).
   */
  method MarkPerfectMatches(gt: string, guess: string, results: array<Option<LetterResult>>,
                            gtLetters: array<Option<char>>, guessLetters: array<Option<char>>)
    requires |guess| == |gt| == results.Length == gtLetters.Length == guessLetters.Length
    requires gtLetters != guessLetters
    requires forall k :: 0 <= k < |gt| ==>
      results[k] == None && gtLetters[k] == Some(gt[k]) && guessLetters[k] == Some(guess[k])
    modifies results, gtLetters, guessLetters
    ensures forall k :: 0 <= k < |gt| ==>
      results[k] == (if guess[k] == gt[k] then Some(LetterResult(guess[k], k, PerfectMatch)) else None)
    ensures forall k :: 0 <= k < |gt| ==>
      gtLetters[k] == (if guess[k] == gt[k] then None else Some(gt[k]))
    ensures forall k :: 0 <= k < |gt| ==>
      guessLetters[k] == (if guess[k] == gt[k] then None else Some(guess[k]))
  {
    for i := 0 to |gt|
      invariant forall k :: 0 <= k < |gt| ==>
        results[k] == (if k < i && guess[k] == gt[k] then Some(LetterResult(guess[k], k, PerfectMatch)) else None)
      invariant forall k :: 0 <= k < |gt| ==>
        gtLetters[k] == (if k < i && guess[k] == gt[k] then None else Some(gt[k]))
      invariant forall k :: 0 <= k < |gt| ==>
        guessLetters[k] == (if k < i && guess[k] == gt[k] then None else Some(guess[k]))
    {
      if guessLetters[i] == gtLetters[i] {
        results[i] := Some(LetterResult(guessLetters[i].value, i, PerfectMatch));
        gtLetters[i] := None;
        guessLetters[i] := None;
      }
    }
  }

  /** `counts` is the counter of step 2 after the first `i` positions. */
  ghost predicate CounterAt(gt: string, guess: string, i: nat, counts: multiset<char>)
    requires |guess| == |gt| && i <= |gt|
  {
    forall c :: counts[c] == Available(gt, guess, i, c)
  }

  /**
   * One position of step 2: an open position is credited as misplaced while the
   * counter still holds a copy of its letter (which it then uses up), and is
   * `NotFound` otherwise; an exact match stays as it is.
   */
  method CreditAt(gt: string, guess: string, results: array<Option<LetterResult>>,
                  guessLetters: array<Option<char>>, counts: multiset<char>, i: nat,
                  ghost target: seq<LetterResult>)
    returns (remaining: multiset<char>)
    requires |guess| == |gt| == results.Length == guessLetters.Length && i < |gt|
    requires results[i] == (if guess[i] == gt[i] then Some(LetterResult(guess[i], i, PerfectMatch)) else None)
    requires guessLetters[i] == (if guess[i] == gt[i] then None else Some(guess[i]))
    requires CounterAt(gt, guess, i, counts)
    requires target == Score(gt, guess)
    modifies results
    ensures results[i] == Some(target[i])
    ensures forall k :: 0 <= k < results.Length && k != i ==> results[k] == old(results[k])
    ensures CounterAt(gt, guess, i + 1, remaining)
  {
    remaining := counts;
    if results[i].None? {
      // an open position still holds its guess letter, so the source's ValueError cannot be raised
      var current := guessLetters[i].value;
      AvailableStep(gt, guess, i, current);
      if remaining[current] > 0 {
        results[i] := Some(LetterResult(current, i, FoundButWrongPosition));
        remaining := remaining[current := remaining[current] - 1];
      } else {
        results[i] := Some(LetterResult(current, i, NotFound));
      }
    }
    forall c
      ensures remaining[c] == Available(gt, guess, i + 1, c)
    {
      AvailableStep(gt, guess, i, c);
    }
  }

  /**
   * Step 2 of a scoring: scan the positions left open by step 1 from left to
   * right with the counter of unconsumed ground-truth letters.
   */
  method CreditRemaining(gt: string, guess: string, results: array<Option<LetterResult>>,
                         guessLetters: array<Option<char>>, counts: multiset<char>,
                         ghost target: seq<LetterResult>)
    requires |guess| == |gt| == results.Length == guessLetters.Length
    requires forall k :: 0 <= k < |gt| ==>
      results[k] == (if guess[k] == gt[k] then Some(LetterResult(guess[k], k, PerfectMatch)) else None)
    requires forall k :: 0 <= k < |gt| ==>
      guessLetters[k] == (if guess[k] == gt[k] then None else Some(guess[k]))
    requires CounterAt(gt, guess, 0, counts)
    requires target == Score(gt, guess)
    modifies results
    ensures forall k :: 0 <= k < |gt| ==> results[k] == Some(target[k])
  {
    var remaining := counts;
    for i := 0 to |gt|
      invariant forall k :: 0 <= k < i ==> results[k] == Some(target[k])
      invariant forall k :: i <= k < |gt| ==>
        results[k] == (if guess[k] == gt[k] then Some(LetterResult(guess[k], k, PerfectMatch)) else None)
      invariant CounterAt(gt, guess, i, remaining)
    {
      remaining := CreditAt(gt, guess, results, guessLetters, remaining, i, target);
    }
  }

  /**
   * The two-pass scoring of `guess` against `gt` on letter lists that are
   * consumed in place; it computes exactly `Score`.
   */
  method ScoreGuess(gt: string, guess: string) returns (rs: seq<LetterResult>)
    requires |guess| == |gt|
    ensures rs == Score(gt, guess)
  {
    var n := |gt|;
    var results := new Option<LetterResult>[n](_ => None);
    var gtLetters := new Option<char>[n](i requires 0 <= i < n => Some(gt[i]));
    var guessLetters := new Option<char>[n](i requires 0 <= i < n => Some(guess[i]));
    MarkPerfectMatches(gt, guess, results, gtLetters, guessLetters);
    var remaining := multiset(Present(gtLetters[..]));
    forall c | true
      ensures remaining[c] == Available(gt, guess, 0, c)
    {
      PresentAfterConsumption(gt, guess, gtLetters[..], n, c);
    }
    CreditRemaining(gt, guess, results, guessLetters, remaining, Score(gt, guess));
    rs := Values(results[..]);
  }

  class SutomFSM {
    const gtWord: string
    var pastResults: seq<GuessResult>

    ghost predicate Valid()
      reads this
    {
      ConsistentWith(pastResults, gtWord)
    }

    constructor (groundTruthWord: string)
      ensures Valid()
      ensures gtWord == groundTruthWord && pastResults == []
    {
      gtWord := groundTruthWord;
      pastResults := [];
    }

    /** The ground-truth word as a list of letters. */
    function GtLetters(): (letters: seq<char>)
      ensures |letters| == |gtWord|
      ensures forall i :: 0 <= i < |gtWord| ==> letters[i] == gtWord[i]
    {
      seq(|gtWord|, i requires 0 <= i < |gtWord| => gtWord[i])
    }

    /** The guesses made so far, oldest first. */
    function PastGuesses(): (guesses: seq<string>)
      reads this
      ensures |guesses| == |pastResults|
      ensures forall k :: 0 <= k < |pastResults| ==> guesses[k] == pastResults[k].guess
    {
      seq(|pastResults|, k requires 0 <= k < |pastResults| reads this => pastResults[k].guess)
    }

    /**
     * For every ground-truth position, its letter and whether some past guess
     * matched it exactly there.
     */
    method StateOfPrediction() returns (preds: seq<(char, LetterStatus)>)
      requires Valid()
      ensures |preds| == |gtWord|
      ensures forall idx :: 0 <= idx < |gtWord| ==> preds[idx].0 == gtWord[idx]
      ensures forall idx :: 0 <= idx < |gtWord| ==>
        preds[idx].1 == (if PerfectInHistory(pastResults, idx) then PerfectMatch else NotFound)
      ensures forall idx :: 0 <= idx < |gtWord| ==>
        (preds[idx].1 == PerfectMatch <==>
         exists k :: 0 <= k < |pastResults| && pastResults[k].guess[idx] == gtWord[idx])
    {
      preds := seq(|gtWord|, i requires 0 <= i < |gtWord| => (gtWord[i], NotFound));
      for idx := 0 to |gtWord|
        invariant |preds| == |gtWord|
        invariant forall i :: 0 <= i < |gtWord| ==> preds[i].0 == gtWord[i]
        invariant forall i :: 0 <= i < idx ==>
          preds[i].1 == (if PerfectInHistory(pastResults, i) then PerfectMatch else NotFound)
        invariant forall i :: idx <= i < |gtWord| ==> preds[i].1 == NotFound
      {
        var letter := gtWord[idx];
        for j := 0 to |pastResults|
          invariant |preds| == |gtWord|
          invariant forall i :: 0 <= i < |gtWord| ==> preds[i].0 == gtWord[i]
          invariant forall i :: 0 <= i < idx ==>
            preds[i].1 == (if PerfectInHistory(pastResults, i) then PerfectMatch else NotFound)
          invariant forall i :: idx < i < |gtWord| ==> preds[i].1 == NotFound
          invariant preds[idx].1 == (if PerfectInHistory(pastResults[..j], idx) then PerfectMatch else NotFound)
        {
          var pastResForL := pastResults[j].results[idx];
          if pastResForL.status == PerfectMatch {
            preds := preds[idx := (letter, PerfectMatch)];
          }
          assert forall k :: 0 <= k < j ==> pastResults[..j + 1][k] == pastResults[..j][k];
          assert pastResults[..j + 1][j] == pastResults[j];
        }
        assert pastResults[..|pastResults|] == pastResults;
      }
    }

    /**
     * The copies of `letterGuess` in the ground truth minus the results for it
     * that are not exact matches.
     */
    method HowManyGuessLeftFor(letterGuess: char, currentTurnResults: seq<LetterResult>) returns (left: int)
      requires letterGuess in gtWord
      ensures left == multiset(gtWord)[letterGuess] - NonPerfectCount(currentTurnResults, letterGuess)
    {
      var rawCount := multiset(gtWord)[letterGuess];
      var alreadyFound: int := 0;
      for i := 0 to |currentTurnResults|
        invariant alreadyFound == NonPerfectCount(currentTurnResults[..i], letterGuess)
      {
        var letterGuessed := currentTurnResults[i].letter;
        var guessStatus := currentTurnResults[i].status;
        if letterGuessed == letterGuess && guessStatus != PerfectMatch {
          alreadyFound := alreadyFound + 1;
        }
        assert currentTurnResults[..i + 1][..i] == currentTurnResults[..i];
      }
      assert currentTurnResults[..|currentTurnResults|] == currentTurnResults;
      left := rawCount - alreadyFound;
    }

    /**
     * Scores `guess` against the ground truth and appends the record to the
     * history; a guess of the wrong length is refused and changes nothing.
     */
    method Guess(guess: string) returns (r: Result<GuessResult, GuessError>)
      requires Valid()
      modifies this
      ensures Valid()
      ensures |guess| != |gtWord| ==> r == Err(LengthMismatch) && pastResults == old(pastResults)
      ensures |guess| == |gtWord| ==>
        r == Ok(GuessResult(guess, Score(gtWord, guess))) && pastResults == old(pastResults) + [r.value]
      ensures PastGuesses() == old(PastGuesses()) + (if r.Ok? then [guess] else [])
    {
      if |guess| != |gtWord| {
        return Err(LengthMismatch);
      }
      var rs := ScoreGuess(gtWord, guess);
      var res := GuessResult(guess, rs);
      pastResults := pastResults + [res];
      r := Ok(res);
    }
  }
}
