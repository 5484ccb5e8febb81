/** The client's game state and the actions its reducer understands. Counts
    are JavaScript numbers that only ever hold integers, so they are `int`s.
    Scores are `Num`s: the score of a guess against no tokens is `0 / 0`,
    which is NaN, and it is added to the running score. */
module GameTypes {
  import opened JsRuntime

  /** The tokens of the round being played: the comment's words in order and
      the order in which they are offered. */
  datatype Tokens = Tokens(correctTokens: seq<string>, shuffledTokens: seq<string>)

  /** The comment a round was built from, as the server describes it. */
  datatype CommentData = CommentData(body: string, subreddit: string, url: string, postId: string, id: string)

  /** The result panel shown after a scored submission. */
  datatype EndScreen = EndScreen(show: bool, isClose: bool, score: Num)

  datatype GameState = GameState(
    round: int,
    totalRounds: int,
    attempts: int,
    tokens: Tokens,
    arranged: seq<string>,
    availableTokens: seq<string>,
    data: Option<CommentData>,
    hintUsed: bool,
    loading: bool,
    score: Num,
    endScreen: EndScreen,
    gameOver: bool,
    highScore: Num,
    initialized: bool)

  /** One constructor per action type, carrying that action's payload. */
  datatype GameAction =
    | Init(highScore: Num, round: int, score: Num)
    | SetTotalRounds(rounds: int)
    | SetGameOver(over: bool)
    | SetLoading(isLoading: bool)
    | SetRoundData(roundTokens: Tokens, roundData: Option<CommentData>)
    | AddArranged(token: string)
    | SetArranged(items: seq<string>)
    | SetAvailableTokens(available: seq<string>)
    | SetHintUsed(used: bool)
    | ResetRound
    | SubmitGuess(calcScore: Num, isClose: bool, newScore: Num)
    | ContinueRound
    | DecrementAttempts
    | ResetGame
}
