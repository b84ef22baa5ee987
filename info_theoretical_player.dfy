/**
 * The oldest information-theoretic player. Compared with the canonical one it
 *  - keeps only the letters of the good verdicts, and requires a candidate to
 *    contain each of them somewhere (an exact match is not checked at its
 *    position);
 *  - removes the good letters from the `NotFound` letters after collecting
 *    them, rather than while filtering the verdicts;
 *  - overwrites its vocabulary with the narrowed pool, so it scores and picks
 *    among the remaining candidates only, and divides by the pool's size;
 *  - has no shortcut for a single remaining candidate.
 * The expectation and the score are the canonical ones, taken over the pool.
 */
module InfoTheoreticalPlayer {
  import opened Wrappers
  import opened Seqs
  import opened Sutom
  import opened InfoTheoreticPlayer

  /**
   * Letters of the `NotFound` verdicts, minus the letters of the good verdicts.
   * Removing the good letters afterwards gives the canonical bad letters.
   */
  function OldBadLetters(h: seq<GuessResult>): (letters: set<char>)
    ensures letters == BadLetters(h)
  {
    (set r | r in Flatten(h) && r.status == NotFound :: r.letter) - GoodLetters(h)
  }

  function ContainsAllLetters(letters: set<char>): string -> bool
  {
    w => forall c :: c in letters ==> c in w
  }

  function WithAllLetters(pool: seq<string>, letters: set<char>): (r: seq<string>)
    ensures forall w :: w in r <==> w in pool && forall c :: c in letters ==> c in w
    ensures Subseq(r, pool)
  {
    Filter(ContainsAllLetters(letters), pool)
  }

  /**
   * This player's narrowing step: drop words with a bad letter, then words
   * missing a good letter. What is left is the old pool, in order, minus
   * exactly the words holding a canonical bad letter or lacking a good one.
   */
  function RefineLetters(pool: seq<string>, h: seq<GuessResult>): (r: seq<string>)
    ensures forall w :: w in r <==>
      w in pool && NoBadLetter(BadLetters(h))(w) && ContainsAllLetters(GoodLetters(h))(w)
    ensures Subseq(r, pool)
  {
    var narrowed := WithoutBadLetters(pool, OldBadLetters(h));
    var r := WithAllLetters(narrowed, GoodLetters(h));
    SubseqTrans(r, narrowed, pool);
    r
  }

  /** A word meeting every good verdict contains every good letter. */
  lemma GoodVerdictsGiveGoodLetters(h: seq<GuessResult>, w: string)
    requires SatisfiesGood(GoodResults(h))(w)
    ensures ContainsAllLetters(GoodLetters(h))(w)
  {
    forall c | c in GoodLetters(h)
      ensures c in w
    {
      var r :| r in GoodResults(h) && r.letter == c;
      if r.status == PerfectMatch {
        assert w[r.position] == c;
      }
    }
  }

  /**
   * The canonical pool is a sub-sequence of this player's pool: checking exact
   * matches at their position only removes more candidates.
   */
  lemma {:induction false} RefineWithinRefineLetters(pool: seq<string>, h: seq<GuessResult>)
    ensures Subseq(Refine(pool, h), RefineLetters(pool, h))
  {
    var narrowed := WithoutBadLetters(pool, BadLetters(h));
    forall w | w in narrowed && SatisfiesGood(GoodResults(h))(w)
      ensures ContainsAllLetters(GoodLetters(h))(w)
    {
      GoodVerdictsGiveGoodLetters(h, w);
    }
    FilterStronger(SatisfiesGood(GoodResults(h)), ContainsAllLetters(GoodLetters(h)), narrowed);
  }

  /** One guess "ax": 'a' exact at position 0, 'x' absent. */
  function OneExactOneAbsent(): (h: seq<GuessResult>)
    ensures |h| == 1
  {
    [GuessResult("ax", [LetterResult('a', 0, PerfectMatch), LetterResult('x', 1, NotFound)])]
  }

  /** The good and bad letters of `OneExactOneAbsent`. */
  lemma OneExactOneAbsentLetters()
    ensures LetterResult('a', 0, PerfectMatch) in GoodResults(OneExactOneAbsent())
    ensures GoodLetters(OneExactOneAbsent()) == {'a'}
    ensures BadLetters(OneExactOneAbsent()) == {'x'}
  {
    var h := OneExactOneAbsent();
    var rs := h[0].results;
    assert forall r :: r in rs <==> r == rs[0] || r == rs[1];
    assert forall c :: c in GoodLetters(h) ==> c == 'a';
    assert rs[0] in GoodResults(h);
    assert rs[1] in Flatten(h);
  }

  /**
   * The positional check matters: from pool ["ac", "ca"], this player keeps
   * "ca", which holds an 'a' but not at position 0; the canonical player drops it.
   */
  lemma PositionalCheckMatters()
    ensures "ca" in RefineLetters(["ac", "ca"], OneExactOneAbsent())
    ensures "ca" !in Refine(["ac", "ca"], OneExactOneAbsent())
  {
    var h := OneExactOneAbsent();
    OneExactOneAbsentLetters();
    assert !SatisfiesGood(GoodResults(h))("ca");
    assert ContainsAllLetters(GoodLetters(h))("ca");
    assert NoBadLetter(BadLetters(h))("ca") by {
      assert "ca"[0] != 'x' && "ca"[1] != 'x';
    }
    RefineCharacterisation(["ac", "ca"], h);
  }

  /**
   * Soundness of this player's narrowing: when the history was produced by the
   * feedback engine for `gt`, a pool that holds `gt` still holds it.
   */
  lemma LetterRefineKeepsGroundTruth(pool: seq<string>, h: seq<GuessResult>, gt: string)
    requires ConsistentWith(h, gt) && gt in pool
    ensures gt in RefineLetters(pool, h)
  {
    GroundTruthSurvives(pool, h, gt);
    RefineWithinRefineLetters(pool, h);
    SubseqMembers(Refine(pool, h), RefineLetters(pool, h));
  }

  /** Narrowing twice with the same history changes nothing more. */
  lemma RefineLettersIdempotent(pool: seq<string>, h: seq<GuessResult>)
    ensures RefineLetters(RefineLetters(pool, h), h) == RefineLetters(pool, h)
  {
    var once := RefineLetters(pool, h);
    FilterAllPass(NoBadLetter(OldBadLetters(h)), once);
    FilterAllPass(ContainsAllLetters(GoodLetters(h)), once);
  }

  /**
   * With a single candidate left, ranking the pool picks that candidate, so
   * the missing single-word shortcut changes nothing.
   */
  lemma SingleCandidateChosen(pool: seq<string>, gtLength: int)
    requires |pool| == 1 && Scorable(pool, gtLength, pool[0])
    ensures BestGuess(pool, gtLength, pool) == pool[0]
  {
  }

  // ---------------------------------------------------------------------------
  // The player
  // ---------------------------------------------------------------------------

  class InfoTheoretical {
    const gtLength: int
    /** The words still ranked; narrowed together with the pool. */
    var vocab: seq<string>
    /** The candidates still consistent with the feedback seen so far. */
    var potentialAnswers: seq<string>

    ghost predicate Valid()
      reads this
    {
      potentialAnswers == vocab && forall w :: w in vocab ==> |w| == gtLength
    }

    constructor (gtLength: int, vocab: seq<string>)
      ensures Valid()
      ensures this.gtLength == gtLength && this.vocab == FilterVocabOnSize(gtLength, vocab)
    {
      this.gtLength := gtLength;
      this.vocab := FilterVocabOnSize(gtLength, vocab);
      potentialAnswers := FilterVocabOnSize(gtLength, vocab);
    }

    /**
     * Narrows the vocabulary with the history, stores it as both the pool and
     * the vocabulary, then returns the first remaining word with the highest
     * score against the remaining words.
     */
    method Guess(history: seq<GuessResult>) returns (r: Result<string, PlayerError>)
      requires Valid()
      modifies this
      ensures Valid()
      ensures vocab == RefineLetters(old(vocab), history)
      ensures Subseq(vocab, old(vocab))
      ensures r == (if |vocab| == 0 then Err(EmptyVocab) else Ok(BestGuess(vocab, gtLength, vocab)))
      ensures r.Ok? ==> r.value in potentialAnswers
    {
      var good := GoodLetters(history);
      var bad := OldBadLetters(history);
      var narrowed := WithoutBadLetters(vocab, bad);
      vocab := narrowed;
      var pool := WithAllLetters(narrowed, good);
      potentialAnswers := pool;
      vocab := pool;
      SubseqTrans(pool, narrowed, old(vocab));
      if |vocab| == 0 {
        return Err(EmptyVocab);
      }
      r := Ok(BestGuess(vocab, gtLength, vocab));
    }
  }
}
