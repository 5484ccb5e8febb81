/** The client's game-state reducer: a pure transition function with one case
    per action, and the bookkeeping it keeps when actions arrive the way the
    client dispatches them. */
module Reducer {
  import opened JsRuntime
  import opened GameTypes

  /** Attempts granted at the start of every round. */
  const MaxAttempts: int := 3

  /** The round count assumed until the post's data says otherwise. */
  const DefaultTotalRounds: int := 30

  /** The result panel, hidden. */
  const ClearedEndScreen: EndScreen := EndScreen(false, false, Real(0.0))

  /** The state before anything has been loaded. */
  const InitialGameState: GameState :=
    GameState(
      round := 0,
      totalRounds := DefaultTotalRounds,
      attempts := MaxAttempts,
      tokens := Tokens([], []),
      arranged := [],
      availableTokens := [],
      data := None,
      hintUsed := false,
      loading := true,
      score := Real(0.0),
      endScreen := ClearedEndScreen,
      gameOver := false,
      highScore := Real(0.0),
      initialized := false)

  /** `xs.filter(x => x !== t)`: every copy of `t` removed, the rest in order. */
  function RemoveAll(xs: seq<string>, t: string): (r: seq<string>)
    ensures t !in r
    ensures forall k :: 0 <= k < |r| ==> r[k] in xs
    ensures |r| <= |xs|
    decreases |xs|
  {
    if |xs| == 0 then []
    else (if xs[0] == t then [] else [xs[0]]) + RemoveAll(xs[1..], t)
  }

  /** Filtering removes exactly the copies of `t` and keeps every other count. */
  lemma {:induction false} RemoveAllCounts(xs: seq<string>, t: string)
    ensures multiset(RemoveAll(xs, t)) == multiset(xs)[t := 0]
    decreases |xs|
  {
    if |xs| > 0 {
      assert xs == [xs[0]] + xs[1..];
      RemoveAllCounts(xs[1..], t);
    }
  }

  /** Filtering out a value that does not occur changes nothing. */
  lemma {:induction false} RemoveAllAbsent(xs: seq<string>, t: string)
    requires t !in xs
    ensures RemoveAll(xs, t) == xs
    decreases |xs|
  {
    if |xs| > 0 {
      assert t !in xs[1..];
      RemoveAllAbsent(xs[1..], t);
      assert [xs[0]] + xs[1..] == xs;
    }
  }

  /** `gameReducer`. Its contract says which actions own which fields: the high
      score, the tokens, the round count and the comment data each have one
      writer; `initialized` only ever becomes true; attempts only drop by one
      on a decrement or go back to the maximum. */
  function GameReducer(s: GameState, a: GameAction): (r: GameState)
    ensures r.highScore != s.highScore ==> a.Init?
    ensures r.tokens != s.tokens || r.data != s.data ==> a.SetRoundData?
    ensures r.totalRounds != s.totalRounds ==> a.SetTotalRounds?
    ensures r.initialized == (s.initialized || a.Init?)
    ensures r.round != s.round ==> a.Init? || a.ContinueRound? || a.ResetGame?
    ensures r.score != s.score ==> a.Init? || a.SubmitGuess? || a.ResetGame?
    ensures r.gameOver != s.gameOver ==> a.SetGameOver? || a.ContinueRound? || a.ResetGame?
    ensures r.attempts != s.attempts ==>
      r.attempts == MaxAttempts || (a.DecrementAttempts? && r.attempts == s.attempts - 1)
    ensures r.arranged != s.arranged ==>
      a.SetRoundData? || a.AddArranged? || a.SetArranged? || a.ResetRound?
  {
    match a
    case Init(highScore, round, score) =>
      s.(highScore := highScore, round := round, score := score, initialized := true)
    case SetTotalRounds(rounds) => s.(totalRounds := rounds)
    case SetGameOver(over) => s.(gameOver := over)
    case SetLoading(isLoading) => s.(loading := isLoading)
    case SetRoundData(roundTokens, roundData) =>
      s.(tokens := roundTokens, data := roundData,
         availableTokens := roundTokens.shuffledTokens, arranged := [],
         hintUsed := false, loading := false)
    case AddArranged(token) =>
      s.(arranged := s.arranged + [token],
         availableTokens := RemoveAll(s.availableTokens, token))
    case SetArranged(items) => s.(arranged := items)
    case SetAvailableTokens(available) => s.(availableTokens := available)
    case SetHintUsed(used) => s.(hintUsed := used)
    case ResetRound =>
      s.(arranged := [], availableTokens := s.tokens.shuffledTokens,
         attempts := MaxAttempts, endScreen := ClearedEndScreen)
    case DecrementAttempts => s.(attempts := s.attempts - 1)
    case SubmitGuess(calcScore, isClose, newScore) =>
      s.(endScreen := EndScreen(true, isClose, calcScore), score := Add(s.score, newScore))
    case ContinueRound =>
      if s.round + 1 < s.totalRounds then
        s.(round := s.round + 1, attempts := MaxAttempts, endScreen := ClearedEndScreen)
      else
        s.(gameOver := true)
    case ResetGame =>
      s.(round := 0, score := Real(0.0), endScreen := ClearedEndScreen,
         attempts := MaxAttempts, gameOver := false)
  }

  // ---------------------------------------------------------------------------
  // The effect of each action

  /** INIT copies the stored progress and marks the game initialised. */
  lemma InitCopiesProgress(s: GameState, highScore: Num, round: int, score: Num)
    ensures GameReducer(s, Init(highScore, round, score))
      == s.(highScore := highScore, round := round, score := score, initialized := true)
  {
  }

  /** The plain setters of the game's progress change their own field and
      nothing else. */
  lemma SettersChangeOneField(s: GameState, n: int, b: bool)
    ensures GameReducer(s, SetTotalRounds(n)) == s.(totalRounds := n)
    ensures GameReducer(s, SetGameOver(b)) == s.(gameOver := b)
    ensures GameReducer(s, SetLoading(b)) == s.(loading := b)
  {
  }

  /** So do the setters of the round being played. */
  lemma RoundSettersChangeOneField(s: GameState, xs: seq<string>, b: bool)
    ensures GameReducer(s, SetArranged(xs)) == s.(arranged := xs)
    ensures GameReducer(s, SetAvailableTokens(xs)) == s.(availableTokens := xs)
    ensures GameReducer(s, SetHintUsed(b)) == s.(hintUsed := b)
  {
  }

  /** SET_ROUND_DATA offers every shuffled token, empties the arrangement,
      clears the hint and the loading flag, and keeps the attempts and the
      result panel. */
  lemma SetRoundDataStartsRound(s: GameState, t: Tokens, d: Option<CommentData>)
    ensures var r := GameReducer(s, SetRoundData(t, d));
      && r.tokens == t && r.data == d
      && r.availableTokens == t.shuffledTokens && r.arranged == []
      && !r.hintUsed && !r.loading
      && r.attempts == s.attempts && r.endScreen == s.endScreen
      && r.round == s.round && r.score == s.score
  {
  }

  /** ADD_ARRANGED appends the token and drops every copy of it from the
      available tokens, keeping all the other available tokens. */
  lemma AddArrangedMovesToken(s: GameState, t: string)
    ensures var r := GameReducer(s, AddArranged(t));
      && r.arranged == s.arranged + [t]
      && t !in r.availableTokens
      && multiset(r.availableTokens) == multiset(s.availableTokens)[t := 0]
      && r.tokens == s.tokens && r.attempts == s.attempts
  {
    RemoveAllCounts(s.availableTokens, t);
  }

  /** DECREMENT_ATTEMPTS takes exactly one attempt away. */
  lemma DecrementTakesOne(s: GameState)
    ensures GameReducer(s, DecrementAttempts) == s.(attempts := s.attempts - 1)
  {
  }

  /** SUBMIT_GUESS shows the result panel and adds the points to the score. */
  lemma SubmitGuessShowsResult(s: GameState, calcScore: Num, isClose: bool, newScore: Num)
    ensures var r := GameReducer(s, SubmitGuess(calcScore, isClose, newScore));
      && r.endScreen == EndScreen(true, isClose, calcScore)
      && r.score == Add(s.score, newScore)
      && r == s.(endScreen := r.endScreen, score := r.score)
  {
  }

  /** RESET_ROUND puts every token back on offer and restores the attempts. */
  lemma ResetRoundRestarts(s: GameState)
    ensures var r := GameReducer(s, ResetRound);
      && r.arranged == [] && r.availableTokens == s.tokens.shuffledTokens
      && r.attempts == MaxAttempts && r.endScreen == ClearedEndScreen
      && r == s.(arranged := [], availableTokens := r.availableTokens,
                 attempts := MaxAttempts, endScreen := ClearedEndScreen)
  {
  }

  /** CONTINUE_ROUND moves to the next round while there is one, and otherwise
      only ends the game; either way a round index inside the round count
      stays inside it. */
  lemma ContinueRoundAdvances(s: GameState)
    requires 0 <= s.round < s.totalRounds
    ensures var r := GameReducer(s, ContinueRound);
      && 0 <= r.round < r.totalRounds
      && (if s.round + 1 < s.totalRounds
          then r == s.(round := s.round + 1, attempts := MaxAttempts, endScreen := ClearedEndScreen)
          else r == s.(gameOver := true))
  {
  }

  /** RESET_GAME starts from round zero with no score, keeping the high score
      and the tokens. */
  lemma ResetGameRestarts(s: GameState)
    ensures var r := GameReducer(s, ResetGame);
      && r.round == 0 && r.score == Real(0.0) && r.attempts == MaxAttempts
      && !r.gameOver && r.endScreen == ClearedEndScreen
      && r.highScore == s.highScore && r.tokens == s.tokens
      && r == s.(round := 0, score := Real(0.0), endScreen := ClearedEndScreen,
                 attempts := MaxAttempts, gameOver := false)
  {
  }

  /** A NaN score stays NaN until INIT or RESET_GAME replaces it: every
      submission adds to it and nothing else writes it. */
  lemma NaNScoreSticks(s: GameState, a: GameAction)
    requires s.score.NaN?
    requires !a.Init? && !a.ResetGame?
    ensures GameReducer(s, a).score.NaN?
  {
  }

  // ---------------------------------------------------------------------------
  // Token bookkeeping

  /** The tokens of a round: the correct tokens are distinct, the shuffled
      tokens are a rearrangement of them, and each shuffled token is either
      arranged or still available. */
  predicate TokensConsistent(s: GameState) {
    && Distinct(s.tokens.correctTokens)
    && multiset(s.tokens.shuffledTokens) == multiset(s.tokens.correctTokens)
    && multiset(s.arranged) + multiset(s.availableTokens) == multiset(s.tokens.shuffledTokens)
  }

  predicate AttemptsInRange(s: GameState) {
    1 <= s.attempts <= MaxAttempts
  }

  predicate Invariant(s: GameState) {
    TokensConsistent(s) && AttemptsInRange(s)
  }

  /** What holds of the state and the payload whenever the client dispatches
      an action: round data comes from a built round, a token is added only if
      it is correct and not yet arranged, a reorder is a rearrangement, and
      attempts are decremented only while more than one is left. The client
      never dispatches SET_AVAILABLE_TOKENS; a payload for it is required to
      complete the arrangement to the shuffled tokens. */
  predicate Dispatchable(s: GameState, a: GameAction) {
    match a
    case SetRoundData(t, _) =>
      Distinct(t.correctTokens) && multiset(t.shuffledTokens) == multiset(t.correctTokens)
    case AddArranged(t) => t in s.tokens.correctTokens && t !in s.arranged
    case SetArranged(items) => multiset(items) == multiset(s.arranged)
    case SetAvailableTokens(available) =>
      multiset(s.arranged) + multiset(available) == multiset(s.tokens.shuffledTokens)
    case DecrementAttempts => s.attempts > 1
    case _ => true
  }

  lemma InitialStateInvariant()
    ensures Invariant(InitialGameState)
  {
  }

  /** Under consistent bookkeeping, a correct token that is not arranged is
      still available. */
  lemma {:induction false} UnarrangedIsAvailable(s: GameState, t: string)
    requires TokensConsistent(s)
    requires t in s.tokens.correctTokens && t !in s.arranged
    ensures t in s.availableTokens
  {
    assert t in multiset(s.tokens.shuffledTokens);
    assert t !in multiset(s.arranged);
  }

  /** Under consistent bookkeeping no token is arranged twice, none is offered
      twice, and an arranged token is a correct one that is no longer offered. */
  lemma {:induction false} ConsistentTokensDisjoint(s: GameState)
    requires TokensConsistent(s)
    ensures Distinct(s.arranged) && Distinct(s.availableTokens)
    ensures forall k :: 0 <= k < |s.arranged| ==>
      s.arranged[k] in s.tokens.correctTokens && s.arranged[k] !in s.availableTokens
  {
    var c := s.tokens.correctTokens;
    forall x ensures multiset(s.arranged)[x] + multiset(s.availableTokens)[x] <= 1 {
      DistinctCounts(c, x);
    }
    CountsAtMostOneDistinct(s.arranged);
    CountsAtMostOneDistinct(s.availableTokens);
    forall k | 0 <= k < |s.arranged|
      ensures s.arranged[k] in c && s.arranged[k] !in s.availableTokens
    {
      var x := s.arranged[k];
      assert x in multiset(s.arranged);
      DistinctCounts(c, x);
    }
  }

  /** Moving the single available copy of `t` to the arrangement keeps the
      union of arranged and available tokens. */
  lemma {:induction false} MoveTokenCounts(arranged: seq<string>, available: seq<string>, t: string)
    requires multiset(available)[t] == 1
    ensures multiset(arranged + [t]) + multiset(RemoveAll(available, t))
         == multiset(arranged) + multiset(available)
    ensures |RemoveAll(available, t)| == |available| - 1
  {
    var removed := RemoveAll(available, t);
    RemoveAllCounts(available, t);
    assert multiset(removed) == multiset(available) - multiset{t};
    assert |multiset(removed)| == |multiset(available)| - 1;
  }

  /** Adding an available token keeps the bookkeeping: it moves from the
      available tokens to the end of the arrangement. */
  lemma {:induction false} AddArrangedKeepsBookkeeping(s: GameState, t: string)
    requires TokensConsistent(s)
    requires t in s.availableTokens
    ensures var r := GameReducer(s, AddArranged(t));
      && TokensConsistent(r)
      && r.arranged == s.arranged + [t]
      && |r.availableTokens| == |s.availableTokens| - 1
  {
    DistinctCounts(s.tokens.correctTokens, t);
    assert t in multiset(s.availableTokens);
    MoveTokenCounts(s.arranged, s.availableTokens, t);
  }

  /** Every action the client dispatches keeps the bookkeeping and the
      attempt range. */
  lemma {:induction false} DispatchKeepsInvariant(s: GameState, a: GameAction)
    requires Invariant(s)
    requires Dispatchable(s, a)
    ensures Invariant(GameReducer(s, a))
  {
    match a
    case SetRoundData(t, _) =>
      assert multiset(t.shuffledTokens) == multiset(t.correctTokens);
    case AddArranged(t) =>
      UnarrangedIsAvailable(s, t);
      AddArrangedKeepsBookkeeping(s, t);
    case _ =>
  }

  /** The state after a sequence of actions. */
  function Run(s: GameState, actions: seq<GameAction>): GameState
    decreases |actions|
  {
    if |actions| == 0 then s else Run(GameReducer(s, actions[0]), actions[1..])
  }

  /** Each action is dispatchable in the state it arrives in. */
  predicate AllDispatchable(s: GameState, actions: seq<GameAction>)
    decreases |actions|
  {
    |actions| == 0
    || (Dispatchable(s, actions[0]) && AllDispatchable(GameReducer(s, actions[0]), actions[1..]))
  }

  /** Every state the client can reach keeps the bookkeeping and the attempt
      range. */
  lemma {:induction false} RunKeepsInvariant(s: GameState, actions: seq<GameAction>)
    requires Invariant(s)
    requires AllDispatchable(s, actions)
    ensures Invariant(Run(s, actions))
    decreases |actions|
  {
    if |actions| > 0 {
      DispatchKeepsInvariant(s, actions[0]);
      RunKeepsInvariant(GameReducer(s, actions[0]), actions[1..]);
    }
  }

  /** Through any run of actions without INIT or RESET_GAME a NaN score
      stays NaN. */
  lemma {:induction false} RunKeepsNaNScore(s: GameState, actions: seq<GameAction>)
    requires s.score.NaN?
    requires forall k :: 0 <= k < |actions| ==> !actions[k].Init? && !actions[k].ResetGame?
    ensures Run(s, actions).score.NaN?
    decreases |actions|
  {
    if |actions| > 0 {
      NaNScoreSticks(s, actions[0]);
      RunKeepsNaNScore(GameReducer(s, actions[0]), actions[1..]);
    }
  }

  /** Every state reached from the initial one by dispatchable actions keeps
      the bookkeeping and the attempt range. The round index is not part of
      the invariant: INIT copies any stored round and SET_TOTAL_ROUNDS can
      lower the count below it, so `round < totalRounds` is stated per step,
      for CONTINUE_ROUND, in `ContinueRoundAdvances`. */
  lemma ReachableInvariant(actions: seq<GameAction>)
    requires AllDispatchable(InitialGameState, actions)
    ensures Invariant(Run(InitialGameState, actions))
  {
    RunKeepsInvariant(InitialGameState, actions);
  }
}
