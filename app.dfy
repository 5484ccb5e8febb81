/** The game logic of the client's main component: scoring a guess, what the
    "Check Answer" button does, and when a dropped token is added to the
    arrangement. */
module GameApp {
  import opened JsRuntime
  import opened GameTypes
  import opened Reducer
  import DataGen

  // ---------------------------------------------------------------------------
  // Scoring a guess
  // ---------------------------------------------------------------------------

  /** A scored guess: the blended score and whether it counts as close. */
  datatype Evaluation = Evaluation(score: Num, isClose: bool)

  /** How many of the first `m` positions of `correct` hold the same token in
      the guess. A position past the end of the guess reads `undefined`, which
      equals no token. */
  function PositionMatches(correct: seq<string>, guess: seq<string>, m: nat): (p: nat)
    requires m <= |correct|
    ensures p <= m
    decreases m
  {
    if m == 0 then 0
    else
      PositionMatches(correct, guess, m - 1)
      + (if m - 1 < |guess| && correct[m - 1] == guess[m - 1] then 1 else 0)
  }

  /** How many tokens of the guess, repeats included, occur in `correct`. */
  function Overlap(correct: seq<string>, guess: seq<string>): (o: nat)
    ensures o <= |guess|
    decreases |guess|
  {
    if |guess| == 0 then 0
    else
      Overlap(correct, guess[..|guess| - 1])
      + (if guess[|guess| - 1] in correct then 1 else 0)
  }

  /** The score of a guess: 70% for tokens in their place, 30% for tokens that
      belong to the comment at all. With no correct tokens both ratios are
      0 / 0, so the score is NaN, which is never close. */
  function Evaluate(correct: seq<string>, guess: seq<string>): (e: Evaluation)
    ensures e.score.NaN? <==> |correct| == 0
    ensures e.isClose <==> e.score.Real? && 0.5 <= e.score.value < 1.0
  {
    var n := |correct|;
    if n == 0 then Evaluation(NaN, false)
    else
      var positionScore := PositionMatches(correct, guess, n) as real / n as real;
      var overlapScore := Overlap(correct, guess) as real / n as real;
      var score := positionScore * 0.7 + overlapScore * 0.3;
      Evaluation(Real(score), score >= 0.5 && score < 1.0)
  }

  /** `evaluateGuess`: one loop counts positional matches, a second counts
      guessed tokens found in the set of correct tokens. */
  method EvaluateGuess(correct: seq<string>, guess: seq<string>) returns (score: Num, isClose: bool)
    ensures Evaluation(score, isClose) == Evaluate(correct, guess)
  {
    var n := |correct|;
    var pos := 0;
    for i := 0 to n
      invariant pos == PositionMatches(correct, guess, i)
    {
      if i < |guess| && correct[i] == guess[i] {
        pos := pos + 1;
      }
    }
    var inCorrect := set k | 0 <= k < n :: correct[k];
    var overlap := 0;
    for k := 0 to |guess|
      invariant overlap == Overlap(correct, guess[..k])
    {
      assert guess[..k + 1][..k] == guess[..k];
      assert guess[k] in inCorrect <==> guess[k] in correct;
      if guess[k] in inCorrect {
        overlap := overlap + 1;
      }
    }
    assert guess[..|guess|] == guess;
    if n == 0 {
      // 0 / 0
      score := NaN;
    } else {
      var positionScore := pos as real / n as real;
      var overlapScore := overlap as real / n as real;
      score := Real(positionScore * 0.7 + overlapScore * 0.3);
    }
    // Every comparison with NaN is false.
    isClose := score.Real? && score.value >= 0.5 && score.value < 1.0;
  }

  /** All positions agree exactly when every one of them matches. */
  lemma {:induction false} PositionMatchesAll(correct: seq<string>, guess: seq<string>, m: nat)
    requires m <= |correct| && m <= |guess|
    ensures PositionMatches(correct, guess, m) == m <==> correct[..m] == guess[..m]
    decreases m
  {
    if m > 0 {
      PositionMatchesAll(correct, guess, m - 1);
      assert correct[..m] == correct[..m - 1] + [correct[m - 1]];
      assert guess[..m] == guess[..m - 1] + [guess[m - 1]];
      if correct[..m] == guess[..m] {
        assert correct[..m][..m - 1] == correct[..m - 1];
        assert guess[..m][..m - 1] == guess[..m - 1];
      }
    }
  }

  /** A guess made only of correct tokens overlaps in every position. */
  lemma {:induction false} OverlapOfCorrectTokens(correct: seq<string>, guess: seq<string>)
    requires forall k :: 0 <= k < |guess| ==> guess[k] in correct
    ensures Overlap(correct, guess) == |guess|
    decreases |guess|
  {
    if |guess| > 0 {
      OverlapOfCorrectTokens(correct, guess[..|guess| - 1]);
    }
  }

  /** A count of at most `n` out of `n` is a ratio of at most one. */
  lemma RatioAtMostOne(a: real, n: real)
    requires 0.0 <= a <= n && n > 0.0
    ensures 0.0 <= a / n <= 1.0
    ensures a / n * n == a
  {
  }

  /** The blend of two counts out of `n` is one exactly when both are `n`. */
  lemma BlendIsOne(p: nat, o: nat, n: nat)
    requires 1 <= n && p <= n && o <= n
    ensures (p as real / n as real) * 0.7 + (o as real / n as real) * 0.3 == 1.0
      <==> p == n && o == n
  {
    RatioAtMostOne(p as real, n as real);
    RatioAtMostOne(o as real, n as real);
    var x := p as real / n as real;
    var y := o as real / n as real;
    if x * 0.7 + y * 0.3 == 1.0 {
      assert x == 1.0 && y == 1.0;
      assert p as real == n as real;
    }
  }

  /** The score of a guess no longer than the comment is between 0 and 1. */
  lemma ScoreBounds(correct: seq<string>, guess: seq<string>)
    requires 1 <= |correct| && |guess| <= |correct|
    ensures Evaluate(correct, guess).score.Real?
    ensures 0.0 <= Evaluate(correct, guess).score.value <= 1.0
  {
    var n := |correct| as real;
    RatioAtMostOne(PositionMatches(correct, guess, |correct|) as real, n);
    RatioAtMostOne(Overlap(correct, guess) as real, n);
  }

  /** For a full arrangement, the score is 1 exactly when the arrangement is
      the comment's own order. */
  lemma PerfectScoreIffExact(correct: seq<string>, guess: seq<string>)
    requires 1 <= |correct| == |guess|
    ensures Evaluate(correct, guess).score == Real(1.0) <==> guess == correct
  {
    var m := |correct|;
    var p := PositionMatches(correct, guess, m);
    var o := Overlap(correct, guess);
    PositionMatchesAll(correct, guess, m);
    assert correct[..m] == correct && guess[..m] == guess;
    BlendIsOne(p, o, m);
    if guess == correct {
      OverlapOfCorrectTokens(correct, guess);
    }
  }

  /** The exact guess scores 1 and is not close. */
  lemma ExactGuess(correct: seq<string>)
    requires |correct| >= 1
    ensures Evaluate(correct, correct) == Evaluation(Real(1.0), false)
  {
    PerfectScoreIffExact(correct, correct);
  }

  /** A rearrangement of the correct tokens overlaps fully, so only the
      positional part varies: 0.3 + 0.7 * pos / n. */
  lemma RearrangementScore(correct: seq<string>, guess: seq<string>)
    requires |correct| >= 1
    requires multiset(guess) == multiset(correct)
    ensures Evaluate(correct, guess).score
      == Real(0.3 + 0.7 * (PositionMatches(correct, guess, |correct|) as real) / (|correct| as real))
  {
    forall k | 0 <= k < |guess| ensures guess[k] in correct {
      assert guess[k] in multiset(guess);
    }
    OverlapOfCorrectTokens(correct, guess);
    assert |guess| == |multiset(guess)| == |correct|;
  }

  /** Four distinct tokens in reverse order: nothing in place, everything
      present, so 0.3, which is not close. */
  lemma ReversedFour(a: string, b: string, c: string, d: string)
    requires Distinct([a, b, c, d])
    ensures Evaluate([a, b, c, d], [d, c, b, a]) == Evaluation(Real(0.3), false)
  {
    var correct := [a, b, c, d];
    var guess := [d, c, b, a];
    assert PositionMatches(correct, guess, 4) == 0 by {
      assert correct[0] != guess[0] && correct[1] != guess[1];
      assert correct[2] != guess[2] && correct[3] != guess[3];
    }
    OverlapOfCorrectTokens(correct, guess);
  }

  /** Swapping the first two of four distinct tokens: half in place, so 0.65,
      which is close. */
  lemma SwappedFirstTwo(a: string, b: string, c: string, d: string)
    requires Distinct([a, b, c, d])
    ensures Evaluate([a, b, c, d], [b, a, c, d]) == Evaluation(Real(0.65), true)
  {
    var correct := [a, b, c, d];
    var guess := [b, a, c, d];
    assert PositionMatches(correct, guess, 4) == 2 by {
      assert correct[0] != guess[0] && correct[1] != guess[1];
    }
    OverlapOfCorrectTokens(correct, guess);
  }

  /** The overlap counts repeats: four copies of the first token overlap four
      times though only one is in place, scoring 0.475. */
  lemma RepeatedToken(a: string, b: string, c: string, d: string)
    requires Distinct([a, b, c, d])
    ensures Evaluate([a, b, c, d], [a, a, a, a]) == Evaluation(Real(0.475), false)
  {
    var correct := [a, b, c, d];
    var guess := [a, a, a, a];
    assert PositionMatches(correct, guess, 4) == 1 by {
      assert correct[0] != correct[1] && correct[0] != correct[2] && correct[0] != correct[3];
      assert correct[1] != guess[1] && correct[2] != guess[2] && correct[3] != guess[3];
    }
    OverlapOfCorrectTokens(correct, guess);
  }

  // ---------------------------------------------------------------------------
  // Submitting an arrangement
  // ---------------------------------------------------------------------------

  /** The progress saved after a scored submission. */
  datatype Progress = Progress(round: int, score: Num, highScore: Num)

  /** What one press of "Check Answer" does: the action it dispatches, if any,
      and the progress it sends to be saved, if any. */
  datatype Submission = Submission(dispatched: Option<GameAction>, saved: Option<Progress>)

  /** The points `newScore` of a scored guess. Rounding the score to one
      decimal, multiplying by the number of tokens and rounding again is
      decimal formatting, so for a real score the points are the input
      `points`; a NaN score formats as "NaN" and gives NaN points. */
  function Points(score: Num, points: int): (p: Num)
    ensures p.NaN? <==> score.NaN?
  {
    if score.NaN? then NaN else Real(points as real)
  }

  /** `handleSubmit`. An incomplete arrangement is refused; a wrong one costs
      an attempt while more than one is left; anything else is scored, and
      the new round, score and high score are saved. The comparison is on the
      comma-joined arrangements, as in the client. */
  function HandleSubmit(s: GameState, points: int): (r: Submission)
    ensures r.dispatched.None? <==> |s.arranged| != |s.tokens.correctTokens|
    ensures r.dispatched == Some(DecrementAttempts) ==> s.attempts > 1
    ensures r.saved.Some? <==> r.dispatched.Some? && r.dispatched.value.SubmitGuess?
    ensures r.dispatched.Some? ==> r.dispatched.value.DecrementAttempts? || r.dispatched.value.SubmitGuess?
  {
    var correct := s.tokens.correctTokens;
    if |s.arranged| != |correct| then
      Submission(None, None)
    else if s.attempts > 1 && Join(s.arranged, ',') != Join(correct, ',') then
      Submission(Some(DecrementAttempts), None)
    else
      var e := Evaluate(correct, s.arranged);
      var newScore := Points(e.score, points);
      var total := Add(s.score, newScore);
      Submission(Some(SubmitGuess(e.score, e.isClose, newScore)),
                 Some(Progress(s.round + 1, total, MathMax(s.highScore, total))))
  }

  /** A scored submission saves what the reducer then holds: the score the
      reducer adds up is the score sent to be saved. */
  lemma SavedScoreIsReducerScore(s: GameState, points: int)
    requires HandleSubmit(s, points).saved.Some?
    ensures var r := HandleSubmit(s, points);
      && GameReducer(s, r.dispatched.value).score == r.saved.value.score
      && r.saved.value.round == s.round + 1
      && r.saved.value.highScore == MathMax(s.highScore, r.saved.value.score)
  {
  }

  /** Submitting an empty round scores `0 / 0`: the guess, its points, the
      running score and the high score sent to be saved are all NaN, and so
      is the reducer's score afterwards. */
  lemma EmptyRoundPoisonsScore(s: GameState, points: int)
    requires |s.tokens.correctTokens| == 0 && |s.arranged| == 0
    ensures var r := HandleSubmit(s, points);
      && r == Submission(Some(SubmitGuess(NaN, false, NaN)),
                         Some(Progress(s.round + 1, NaN, NaN)))
      && GameReducer(s, r.dispatched.value).score.NaN?
  {
    assert s.arranged == s.tokens.correctTokens;
  }

  /** A round with tokens keeps a real running score real: the points are
      added and the high score is the larger of the two. */
  lemma RealScoreStaysReal(s: GameState, points: int)
    requires |s.arranged| == |s.tokens.correctTokens| >= 1
    requires s.score.Real? && s.highScore.Real?
    ensures var r := HandleSubmit(s, points);
      r.saved.Some? ==>
        && r.saved.value.score == Real(s.score.value + points as real)
        && r.saved.value.highScore.Real?
        && r.saved.value.highScore.value
           == if s.highScore.value >= s.score.value + points as real then s.highScore.value
              else s.score.value + points as real
  {
  }

  /** No token contains a comma. */
  predicate CommaFree(xs: seq<string>) {
    forall k :: 0 <= k < |xs| ==> ',' !in xs[k]
  }

  /** When no token contains a comma, the join comparison is a comparison of
      the arrangements: a wrong full arrangement costs an attempt exactly
      while more than one is left, and every other full arrangement is scored
      against the correct tokens. */
  lemma SubmitDecision(s: GameState, points: int)
    requires |s.arranged| == |s.tokens.correctTokens|
    requires CommaFree(s.arranged) && CommaFree(s.tokens.correctTokens)
    ensures var r := HandleSubmit(s, points);
      && (r.dispatched == Some(DecrementAttempts) <==> s.attempts > 1 && s.arranged != s.tokens.correctTokens)
      && (r.dispatched != Some(DecrementAttempts) ==>
            var e := Evaluate(s.tokens.correctTokens, s.arranged);
            var newScore := Points(e.score, points);
            var total := Add(s.score, newScore);
            r == Submission(Some(SubmitGuess(e.score, e.isClose, newScore)),
                            Some(Progress(s.round + 1, total, MathMax(s.highScore, total)))))
  {
    JoinEqualIffEqual(s.arranged, s.tokens.correctTokens, ',');
  }

  /** On the last attempt every full arrangement is scored. */
  lemma LastAttemptScored(s: GameState, points: int)
    requires |s.arranged| == |s.tokens.correctTokens|
    requires s.attempts <= 1
    ensures HandleSubmit(s, points).dispatched.Some?
    ensures HandleSubmit(s, points).dispatched.value.SubmitGuess?
  {
  }

  /** A submission only ever dispatches what the reducer's invariant allows,
      so the attempt counter never drops below one. */
  lemma SubmitKeepsInvariant(s: GameState, points: int)
    requires Invariant(s)
    ensures var r := HandleSubmit(s, points);
      r.dispatched.Some? ==>
        && Dispatchable(s, r.dispatched.value)
        && Invariant(GameReducer(s, r.dispatched.value))
  {
    var r := HandleSubmit(s, points);
    if r.dispatched.Some? {
      DispatchKeepsInvariant(s, r.dispatched.value);
    }
  }

  /** How many presses of "Check Answer", the arrangement left as it is, it
      takes until the arrangement is scored. */
  function PressesUntilScored(s: GameState, points: int): (k: nat)
    requires 1 <= s.attempts
    requires |s.arranged| == |s.tokens.correctTokens|
    ensures 1 <= k <= s.attempts
    decreases s.attempts
  {
    if HandleSubmit(s, points).dispatched == Some(DecrementAttempts) then
      1 + PressesUntilScored(GameReducer(s, DecrementAttempts), points)
    else 1
  }

  /** A round starts with three attempts, so the third press at the latest
      is scored. */
  lemma ScoredByThirdPress(s: GameState, points: int)
    requires s.attempts == MaxAttempts
    requires |s.arranged| == |s.tokens.correctTokens|
    ensures PressesUntilScored(s, points) <= 3
  {
  }

  // ---------------------------------------------------------------------------
  // Dropping a token
  // ---------------------------------------------------------------------------

  /** The id of the arrangement's drop zone. */
  const DropZoneId: string := "droppable"

  /** `onDragEnd`: a token dropped on the drop zone is added if it is one of
      the correct tokens and not yet arranged. `overId` is the id of the drop
      target, if any; an empty `activeId` is falsy. */
  function OnDragEnd(s: GameState, overId: Option<string>, activeId: string): (r: Option<GameAction>)
    ensures r.Some? ==> r.value == AddArranged(activeId) && Dispatchable(s, r.value)
  {
    if && overId == Some(DropZoneId)
       && activeId != ""
       && activeId in s.tokens.correctTokens
       && activeId !in s.arranged
    then Some(AddArranged(activeId))
    else None
  }

  /** With consistent bookkeeping and no empty token, a drop is accepted
      exactly when it lands on the drop zone with a token still on offer. */
  lemma DropAcceptedIffAvailable(s: GameState, overId: Option<string>, activeId: string)
    requires TokensConsistent(s)
    requires "" !in s.tokens.correctTokens
    ensures OnDragEnd(s, overId, activeId).Some? <==>
      overId == Some(DropZoneId) && activeId in s.availableTokens
  {
    var c := s.tokens.correctTokens;
    if activeId in c && activeId !in s.arranged {
      UnarrangedIsAvailable(s, activeId);
    }
    if activeId in s.availableTokens {
      assert activeId in multiset(s.availableTokens);
      assert activeId in multiset(c);
      DistinctCounts(c, activeId);
      assert multiset(s.arranged)[activeId] == 0;
      assert activeId != "";
    }
  }

  /** An accepted drop keeps the bookkeeping, so the arrangement stays free
      of repeats. */
  lemma DropKeepsArrangementDistinct(s: GameState, overId: Option<string>, activeId: string)
    requires TokensConsistent(s)
    ensures var r := OnDragEnd(s, overId, activeId);
      var next := if r.Some? then GameReducer(s, r.value) else s;
      TokensConsistent(next) && Distinct(next.arranged)
  {
    var r := OnDragEnd(s, overId, activeId);
    if r.Some? {
      UnarrangedIsAvailable(s, activeId);
      AddArrangedKeepsBookkeeping(s, activeId);
      ConsistentTokensDisjoint(GameReducer(s, r.value));
    } else {
      ConsistentTokensDisjoint(s);
    }
  }

  // ---------------------------------------------------------------------------
  // Loading a round
  // ---------------------------------------------------------------------------

  /** The payload of SET_ROUND_DATA for a built round. */
  function RoundTokens(round: DataGen.TokenRound): Tokens {
    Tokens(round.correctTokens, round.shuffledTokens)
  }

  /** A round's tokens and their arrangement, ready to be played: consistent
      bookkeeping, attempts in range, and tokens that are neither empty nor
      contain a comma. */
  predicate RoundReady(s: GameState) {
    && Invariant(s)
    && CommaFree(s.tokens.correctTokens)
    && "" !in s.tokens.correctTokens
  }

  /** The tokens of a built round are distinct, dealt as a rearrangement of
      themselves, never empty and free of commas. */
  lemma BuiltRoundTokens(raw: string, seed: int, pictographic: char -> bool)
    requires DataGen.BuildRound(raw, seed, pictographic).Some?
    ensures var t := RoundTokens(DataGen.BuildRound(raw, seed, pictographic).value);
      && Distinct(t.correctTokens)
      && multiset(t.shuffledTokens) == multiset(t.correctTokens)
      && CommaFree(t.correctTokens)
      && "" !in t.correctTokens
  {
    var round := DataGen.BuildRound(raw, seed, pictographic).value;
    DataGen.BuildRoundProperties(raw, seed, pictographic);
    var c := round.correctTokens;
    forall k | 0 <= k < |c| ensures ',' !in c[k] && c[k] != "" {
      assert DataGen.IsRoundToken(c[k]);
      DataGen.RoundTokenHasNoComma(c[k]);
    }
  }

  /** Loading distinct, comma-free, non-empty tokens dealt as a rearrangement
      of themselves gives a round ready to be played. */
  lemma LoadedRoundIsReady(s: GameState, t: Tokens, data: Option<CommentData>)
    requires AttemptsInRange(s)
    requires Distinct(t.correctTokens)
    requires multiset(t.shuffledTokens) == multiset(t.correctTokens)
    requires CommaFree(t.correctTokens) && "" !in t.correctTokens
    ensures Dispatchable(s, SetRoundData(t, data))
    ensures RoundReady(GameReducer(s, SetRoundData(t, data)))
  {
  }

  /** In a round ready to be played the arranged tokens contain no comma
      either, so a full submission is decided by comparing arrangements. */
  lemma ReadyRoundArrangementCommaFree(s: GameState)
    requires RoundReady(s)
    ensures CommaFree(s.arranged)
  {
    ConsistentTokensDisjoint(s);
    forall k | 0 <= k < |s.arranged| ensures ',' !in s.arranged[k] {
      var i :| 0 <= i < |s.tokens.correctTokens| && s.tokens.correctTokens[i] == s.arranged[k];
    }
  }
}
