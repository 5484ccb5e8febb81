# one-more-comment, modelled in Dafny

one-more-comment is a drag-to-unscramble word game. A post holds up to 30
rounds. Each round is one comment whose words are dealt in a seeded shuffled
order, and the player drags the words back into the comment's order. This
project models the game's sequential logic and proves its properties:

- **Round generation** (`src/shared/data-gen.ts`), in `data_gen.dfy` and
  `mulberry32.dfy`. This covers:
  - cleaning the comment's text;
  - cutting it into tokens;
  - the junk, repeat and size guards;
  - the mulberry32 generator and the Fisher–Yates shuffle it drives;
  - the pass that chooses which comments of a post become rounds.
- **The game-state reducer** (`src/client/game/reducer.ts`, with the shapes of
  `src/client/game/types.ts`), in `game_types.dfy` and `reducer.dfy`. It is a
  pure function over a state record, with one case per action.
- **The client's decisions** (`src/client/game/App.tsx`), in `app.dfy`:
  - scoring a guess;
  - what "Check Answer" dispatches;
  - when a dropped token is added to the arrangement.

`js_runtime.dfy` holds the JavaScript behaviour the logic depends on. That is
the `\s` whitespace class, UTF-16 `length`, `includes`, `split`, `join` and
NaN.

The imperative parts stay imperative:
- `Shuffle` copies the input into an array and swaps in place, drawing from a
  `Rng` object whose `seed` field plays the closure's captured variable.
- `Dedupe` fills a `seen` set in a loop.
- `BuildTokenRound` returns early at each guard.
- `FilterComments` loops with a counter and stops at 30.
- `EvaluateGuess` counts in two loops.

Each of these methods is proved equal to a specification function, and the
properties are proved as lemmas about those functions. The reducer, the
submit decision and the drop guard are pure functions.

Three properties carry most of the weight:
1. The reducer keeps a token-bookkeeping invariant across every action the
   client can dispatch:
   - the correct tokens are distinct;
   - the shuffled tokens are a rearrangement of them;
   - each one is either arranged or still available;
   - attempts stay between 1 and 3.
2. A built round satisfies exactly the preconditions that invariant needs
   (`GameApp.BuiltRoundTokens`).
3. Because round tokens contain no comma, the client's `join()` comparison is
   the same as comparing the arrangements.

## Model

| member | source | states |
|---|---|---|
| JsRuntime.IsWhiteSpace | src/shared/data-gen.ts:61-62 | the characters `\s` matches and `trim()` removes: the ECMAScript WhiteSpace and LineTerminator code points (tab, line feed, vertical tab, form feed, carriage return, space, U+00A0, U+1680, U+2000 to U+200A, U+2028, U+2029, U+202F, U+205F, U+3000, U+FEFF); a definition, used by the trim, collapse and URL lemmas |
| JsRuntime.Add | src/client/game/reducer.ts:75 | JavaScript `+` on numbers: NaN exactly when an operand is NaN, otherwise the sum |
| JsRuntime.MathMax | src/client/game/App.tsx:162 | `Math.max`: NaN exactly when an argument is NaN, otherwise one of the two, at least as large as both |
| JsRuntime.Utf16Length | src/shared/data-gen.ts:90 | `length` counts UTF-16 code units: at least the number of characters and at most twice it |
| JsRuntime.Utf16LengthAppend | src/shared/data-gen.ts:90 | the code-unit length of a concatenation is the sum of the lengths |
| JsRuntime.Includes | src/shared/data-gen.ts:91 | `includes(sub)`: some offset at which the slice of the text of length `|sub|` equals `sub`; a definition, used by `DataGen.BuildRoundJunk` |
| JsRuntime.Split | src/shared/data-gen.ts:94 | `split(' ')` gives at least one piece and no piece contains the separator |
| JsRuntime.JoinSplit | src/shared/data-gen.ts:94 | joining the pieces of a split with the separator gives back the text, so splitting loses nothing |
| JsRuntime.Join | src/client/game/App.tsx:139 | `join(sep)`: the elements with one separator between neighbours, "" for the empty list; a definition, which `JoinSplit` and `SplitJoin` make the inverse of `Split` |
| JsRuntime.SplitJoin | src/client/game/App.tsx:139 | splitting the join of a non-empty list of separator-free strings gives back the list |
| JsRuntime.JoinEqualIffEqual | src/client/game/App.tsx:139 | for equal-length lists of comma-free strings, the `join()` strings are equal exactly when the lists are |
| JsRuntime.PermutationKeepsDistinct | src/shared/data-gen.ts:116 | rearranging a list without repeats gives a list without repeats |
| Mulberry32.SeedBits | src/shared/data-gen.ts:65 | the seed's 32 bits (ToUint32), which every later `Math.imul`, `^`, `|` and `>>>` reads; a definition, with `SeedBitsPeriodic` |
| Mulberry32.SeedBitsPeriodic | src/shared/data-gen.ts:65 | seeds that differ by a multiple of 2^32 give the same generator state |
| Mulberry32.Mix | src/shared/data-gen.ts:67-70 | the two `Math.imul` rounds with their xor-shifts as 32-bit wrap-around multiplication and addition, `>>>` as a logical shift; a definition, whose outputs `ReferenceDraws` pins |
| Mulberry32.ReferenceDraws | src/shared/data-gen.ts:64-71 | the first two draws of `mulberry32(1)` are 0xa087eaf3 and 0x00b349c9 over 2^32, and the first of `mulberry32(42)` is 0x99e1ef7c over 2^32 |
| Mulberry32.Fraction | src/shared/data-gen.ts:70 | the 32-bit output divided by 2^32 is in [0, 1) |
| Mulberry32.SwapIndex | src/shared/data-gen.ts:78 | `Math.floor(r * (i + 1))` for r in [0, 1) is an index between 0 and i |
| Mulberry32.Rng.constructor | src/shared/data-gen.ts:65 | the generator starts from the seed taken modulo 2^32 |
| Mulberry32.Rng.Next | src/shared/data-gen.ts:66-71 | one draw advances the state by 0x6d2b79f5 modulo 2^32 and returns the mixed new state over 2^32, a number in [0, 1) |
| DataGen.Stopwords | src/shared/data-gen.ts:4-44 | the 39 words `STOPWORDS` lists, the same set; a constant, used by `Qualifies` |
| DataGen.DeleteWhere | src/shared/data-gen.ts:50-56 | deleting a character class leaves no character of the class and never lengthens the text |
| DataGen.DeleteWhereCounts | src/shared/data-gen.ts:50-56 | the deletion removes every occurrence of the class's characters and keeps the count of every other character |
| DataGen.NonSpaceRun | src/shared/data-gen.ts:47 | `\S+` consumes a maximal run of non-whitespace: all of it non-whitespace, followed by whitespace or the end |
| DataGen.UrlMatch | src/shared/data-gen.ts:47 | the length of the `https?:\/\/\S+` match at the front of the text: the scheme and a maximal run of at least one non-whitespace character, all of it non-whitespace and followed by whitespace or the end; 0 when no match starts there |
| DataGen.StripUrls | src/shared/data-gen.ts:46-48 | removing the `https?://\S+` matches left to right never lengthens the text, in characters or in UTF-16 code units |
| DataGen.StripUrlsKeeps | src/shared/data-gen.ts:46-48 | removing URLs only deletes: a character property that holds throughout the input holds throughout the output |
| DataGen.StripUrlsNoMatch | src/shared/data-gen.ts:46-48 | no match of `https?://\S+` starts anywhere in the result: every URL is removed and joining the text around one cannot form another |
| DataGen.StripUrlsNoUrl | src/shared/data-gen.ts:46-48 | text in which no match starts anywhere comes back unchanged |
| DataGen.NonSpaceRunExtend | src/shared/data-gen.ts:47 | a run of `\S` stops at the first whitespace character, whatever follows it |
| DataGen.UrlMatchExtend | src/shared/data-gen.ts:47 | the match at the front of `x`, whitespace and `y` is the match at the front of `x`: no match reaches past whitespace |
| DataGen.StripUrlsWhiteFrontMatch | src/shared/data-gen.ts:47 | no match starts at a whitespace character |
| DataGen.StripUrlsAroundWhite | src/shared/data-gen.ts:46-48 | a whitespace character survives URL removal, and the text before it and the text after it are stripped independently |
| DataGen.StripUrlsWholeUrl | src/shared/data-gen.ts:46-48 | text that is one whole match is removed entirely |
| DataGen.StripUrlsRemovesUrl | src/shared/data-gen.ts:46-48 | a URL set off by whitespace on both sides is removed, and everything around it, both whitespace characters included, is kept, stripped of its own URLs |
| DataGen.StripMarkdown | src/shared/data-gen.ts:50-52 | no character of `[`*_>~#]` is left; with `DeleteWhereCounts`, every other character keeps its count |
| DataGen.StripEmojis | src/shared/data-gen.ts:54-56 | no pictographic character is left; with `DeleteWhereCounts`, every other character keeps its count |
| DataGen.ToLower | src/shared/data-gen.ts:60 | lower-casing keeps the length and maps each character by itself |
| DataGen.TrimStart | src/shared/data-gen.ts:62 | the result is a suffix, everything dropped is whitespace, and it does not start with whitespace |
| DataGen.TrimEnd | src/shared/data-gen.ts:62 | the result is a prefix, everything dropped is whitespace, and it does not end with whitespace |
| DataGen.Trim | src/shared/data-gen.ts:62 | `trim()` gives text that neither starts nor ends with whitespace |
| DataGen.TrimIsSlice | src/shared/data-gen.ts:62 | `trim()` gives the slice of the text that starts right after its leading whitespace |
| DataGen.TrimNonWhite | src/shared/data-gen.ts:62 | trimming keeps every non-whitespace character, in order |
| DataGen.CollapseWhiteSpace | src/shared/data-gen.ts:61 | `replace(/\s+/g, ' ')`: a whitespace character becomes one space and the rest of its run is skipped; a definition, whose properties the `Collapse` lemmas state |
| DataGen.CollapseStart | src/shared/data-gen.ts:61 | the collapsed text begins with a space exactly when the text begins with whitespace, and otherwise with the text's first character |
| DataGen.CollapseOnlySpaces | src/shared/data-gen.ts:61 | after `replace(/\s+/g, ' ')` the only whitespace left is the space |
| DataGen.CollapseNoSpacePair | src/shared/data-gen.ts:61 | after `replace(/\s+/g, ' ')` no two spaces are adjacent |
| DataGen.CollapseShortens | src/shared/data-gen.ts:61 | collapsing whitespace runs never lengthens the text |
| DataGen.CollapseKeeps | src/shared/data-gen.ts:61 | a character property holding of the space and of every non-whitespace character of the input holds throughout the collapsed text |
| DataGen.CollapseNonWhite | src/shared/data-gen.ts:61 | collapsing keeps every non-whitespace character, in order |
| DataGen.StripAndLowerPlain | src/shared/data-gen.ts:59-60 | after URL, markdown and pictograph removal and lower-casing, no markdown control character and no ASCII capital is left, and the text has not grown |
| DataGen.TrimNoSpacePair | src/shared/data-gen.ts:62 | trimming cannot create two adjacent spaces |
| DataGen.TrimShortens | src/shared/data-gen.ts:62 | trimming never lengthens the text |
| DataGen.IsWord | src/shared/data-gen.ts:61 | a word: a non-empty run of non-whitespace characters |
| DataGen.Words | src/shared/data-gen.ts:61-62 | the maximal runs of non-whitespace of a text, in order; each is a word |
| DataGen.CollapseRun | src/shared/data-gen.ts:61 | a run of non-whitespace passes through `replace(/\s+/g, ' ')` unchanged |
| DataGen.TrimStartCollapse | src/shared/data-gen.ts:61-62 | dropping leading whitespace before or after collapsing gives the same text |
| DataGen.TrimEndAppend | src/shared/data-gen.ts:62 | trailing whitespace is dropped from the end only: trimming the end of `a + b` keeps `a` when `b` holds a non-whitespace character |
| DataGen.CollapseRunSpace | src/shared/data-gen.ts:61-62 | a word followed by whitespace collapses and trims to that word, one space and the rest's words joined |
| DataGen.CollapseWords | src/shared/data-gen.ts:61-62 | collapsing whitespace and trimming text that has no leading whitespace joins its words with single spaces |
| DataGen.TrimCollapseWords | src/shared/data-gen.ts:61-62 | `replace(/\s+/g, ' ').trim()` is exactly the text's words joined by single spaces |
| DataGen.Normalize | src/shared/data-gen.ts:58-63 | normalized text is the words (maximal non-whitespace runs) of the text after URL, markdown and pictograph removal and lower-casing, kept in order and joined by single spaces; it holds no markdown control character and no ASCII capital, has no space at either end and no two spaces together, and is no longer than the input |
| DataGen.WordHasNoSpace | src/shared/data-gen.ts:94 | a word contains no space |
| DataGen.NormalizedPieces | src/shared/data-gen.ts:87-94 | `cleaned.split(' ')` gives back exactly the words of the comment, or the one empty piece when it has none |
| DataGen.TokenizeWords | src/shared/data-gen.ts:87-99 | the tokens of a comment are the candidates the filter chain keeps from its words, in order |
| DataGen.KeepTokenChars | src/shared/data-gen.ts:95 | a cleaned piece contains only `[a-z0-9']` |
| DataGen.Candidates | src/shared/data-gen.ts:93-99 | every token the chain keeps is non-empty, at least 3 long, not a stopword, not all digits, and made of `[a-z0-9']` |
| DataGen.Tokenize | src/shared/data-gen.ts:93-99 | the same, for the tokens of the normalized text split at spaces |
| DataGen.CandidatesAppend | src/shared/data-gen.ts:93-99 | the chain works piece by piece: the tokens of two runs of pieces are the tokens of the first followed by those of the second, so text order is kept |
| DataGen.CandidatesExactly | src/shared/data-gen.ts:93-99 | a string is a token exactly when it is the cleaned form of some piece and passes the filters |
| DataGen.Unique | src/shared/data-gen.ts:101-107 | the `seen` filter keeps a repeat-free list that holds every input token and only input tokens, and is no longer than the input |
| DataGen.UniqueLengthIffDistinct | src/shared/data-gen.ts:109 | the `unique.length !== tokens.length` test fails exactly when the tokens have no repeats |
| DataGen.UniqueOfDistinct | src/shared/data-gen.ts:101-107 | the filter keeps a repeat-free list in full and in order |
| DataGen.Dedupe | src/shared/data-gen.ts:101-107 | the loop filling `seen` computes exactly the first occurrences in order |
| DataGen.Swap | src/shared/data-gen.ts:79 | the destructuring swap exchanges positions i and j and leaves every other position alone |
| DataGen.SwapPermutes | src/shared/data-gen.ts:79 | a swap keeps the multiset of elements |
| DataGen.ShuffleFrom | src/shared/data-gen.ts:77-80 | the loop from index i down to 1 keeps the length |
| DataGen.ShuffleFromPermutes | src/shared/data-gen.ts:77-80 | the loop from any index and generator state keeps the multiset of elements |
| DataGen.ShuffleStep | src/shared/data-gen.ts:77-80 | the loop from i is one draw, one swap of positions i and j, then the loop from i - 1 in the advanced state |
| DataGen.ShuffleOf | src/shared/data-gen.ts:74-82 | `shuffle(arr, seed)` as a value keeps the length |
| DataGen.ShufflePermutes | src/shared/data-gen.ts:74-82 | the shuffle is a permutation of its input: same multiset, for every seed |
| DataGen.ShuffleIteration | src/shared/data-gen.ts:78-79 | one loop body draws once and swaps `a[i]` with the drawn index, leaving the array as `Swap` of the old contents |
| DataGen.Shuffle | src/shared/data-gen.ts:74-82 | the array method returns exactly `ShuffleOf(arr, seed)`, a function of the input and seed alone; the input is a value and is not modified |
| DataGen.ShuffleKeepsDistinct | src/shared/data-gen.ts:74-82 | the shuffle of a repeat-free list is repeat-free |
| DataGen.ShuffleShort | src/shared/data-gen.ts:77 | lists of at most one element come back unchanged |
| DataGen.BuildRound | src/shared/data-gen.ts:84-122 | `buildTokenRound` as a value: null on each guard that fails, otherwise the unique tokens and their shuffle; a definition, whose meaning `BuildRoundSucceedsIff` and `BuildRoundProperties` state |
| DataGen.BuildTokenRound | src/shared/data-gen.ts:84-122 | the method with its early returns, dedupe loop and shuffle returns exactly `BuildRound(raw, seed)` |
| DataGen.BuildRoundJunk | src/shared/data-gen.ts:85-91 | empty text, normalized text under 30 code units, or text containing `[deleted]` or `[removed]` gives no round |
| DataGen.BuildRoundShortRaw | src/shared/data-gen.ts:87-90 | since normalizing never lengthens, raw text under 30 code units gives no round |
| DataGen.BuildRoundSucceedsIff | src/shared/data-gen.ts:84-122 | a round is built exactly when the text is non-empty and passes the junk guards, and its tokens are repeat-free, 4 to 12 of them, none longer than 18 |
| DataGen.BuildRoundRepeatRejects | src/shared/data-gen.ts:101-109 | one qualifying token occurring twice anywhere gives no round |
| DataGen.QualifyingIsRoundToken | src/shared/data-gen.ts:96-99 | a qualifying token of at most 18 characters is 3 to 18 characters of `[a-z0-9']`, not a stopword and not all digits |
| DataGen.BuildRoundProperties | src/shared/data-gen.ts:93-121 | a round's correct tokens are exactly the normalized text's tokens in order, repeat-free, 4 to 12 of them, each a round token; its shuffled tokens are `shuffle(correctTokens, seed)`, a repeat-free rearrangement of them |
| DataGen.RoundTokenHasNoComma | src/shared/data-gen.ts:95 | a token of `[a-z0-9']` characters contains no comma |
| DataGen.BodyText | src/shared/data-gen.ts:129 | `comment.body || ''`: the body, or "" when it is missing; an empty body is "" either way |
| DataGen.PlayableBefore | src/shared/data-gen.ts:128-135 | the playable comments among the first n are at most n entries |
| DataGen.PlayableBeforePrefix | src/shared/data-gen.ts:127-138 | the list for the first n comments is a prefix of the list for the first m >= n, so stopping early takes a prefix |
| DataGen.PlayableBeforeEntries | src/shared/data-gen.ts:129-135 | every entry is a playable comment with its own id and an index below n, and the indexes strictly increase |
| DataGen.PlayableBeforeLists | src/shared/data-gen.ts:128-135 | among the first n comments, a comment is listed exactly when it makes a round under seed + its index |
| DataGen.SelectionProperties | src/shared/data-gen.ts:124-141 | the selection has at most 30 entries, strictly increasing indexes, each a playable comment with its own id, and it lists every playable comment before the cutoff |
| DataGen.FilterComments | src/shared/data-gen.ts:124-141 | the loop with its counter and early break returns exactly the first 30 playable comments in order |
| Reducer.InitialGameState | src/client/game/reducer.ts:3-21 | round 0 of 30, 3 attempts, no tokens, no arrangement, no data, no hint used, loading, score and high score 0, the result panel hidden with score 0, not over, not initialized; `InitialStateInvariant` states that it satisfies the invariant |
| Reducer.RemoveAll | src/client/game/reducer.ts:53 | the filter leaves no copy of the token, keeps only elements of the input, and never lengthens it |
| Reducer.RemoveAllCounts | src/client/game/reducer.ts:53 | the filter removes every copy of the token and keeps the count of every other token |
| Reducer.RemoveAllAbsent | src/client/game/reducer.ts:53 | filtering out a token that is not there changes nothing |
| Reducer.GameReducer | src/client/game/reducer.ts:23-100 | each field has its writers: only INIT changes the high score; only SET_ROUND_DATA changes the tokens and the comment data; only SET_TOTAL_ROUNDS changes the round count; `initialized` only ever becomes true; the round, score, game-over flag and arrangement change only under their listed actions; attempts either go back to 3 or drop by exactly one on DECREMENT_ATTEMPTS |
| Reducer.InitCopiesProgress | src/client/game/reducer.ts:25-32 | INIT copies high score, round and score, sets `initialized`, and changes nothing else |
| Reducer.SettersChangeOneField | src/client/game/reducer.ts:33-38 | SET_TOTAL_ROUNDS, SET_GAME_OVER and SET_LOADING each change their field only |
| Reducer.RoundSettersChangeOneField | src/client/game/reducer.ts:55-60 | SET_ARRANGED, SET_AVAILABLE_TOKENS and SET_HINT_USED each change their field only |
| Reducer.SetRoundDataStartsRound | src/client/game/reducer.ts:39-48 | SET_ROUND_DATA installs the tokens and data, offers every shuffled token, empties the arrangement, clears the hint and loading flags, and leaves the attempts, result panel, round and score alone |
| Reducer.AddArrangedMovesToken | src/client/game/reducer.ts:49-54 | ADD_ARRANGED appends the token to the arrangement and removes every copy of it from the available tokens, keeping the others; tokens and attempts are unchanged |
| Reducer.DecrementTakesOne | src/client/game/reducer.ts:69-70 | DECREMENT_ATTEMPTS lowers attempts by exactly one and changes nothing else |
| Reducer.SubmitGuessShowsResult | src/client/game/reducer.ts:71-76 | SUBMIT_GUESS shows the panel with the guess's closeness and score, and adds the points to the score with JavaScript `+`, nothing else |
| Reducer.NaNScoreSticks | src/client/game/reducer.ts:23-100 | a NaN score stays NaN under every action but INIT and RESET_GAME |
| Reducer.RunKeepsNaNScore | src/client/game/reducer.ts:23-100 | a NaN score stays NaN through any run of actions without INIT or RESET_GAME |
| Reducer.ResetRoundRestarts | src/client/game/reducer.ts:61-68 | RESET_ROUND empties the arrangement, offers the shuffled tokens again, restores 3 attempts and hides the panel, nothing else |
| Reducer.ContinueRoundAdvances | src/client/game/reducer.ts:77-87 | CONTINUE_ROUND moves to the next round with 3 attempts and a hidden panel while one is left, and otherwise only ends the game; a round index within the round count stays within it |
| Reducer.ResetGameRestarts | src/client/game/reducer.ts:88-96 | RESET_GAME zeroes round and score, restores 3 attempts, clears game-over and the panel, and keeps the high score and tokens |
| Reducer.InitialStateInvariant | src/client/game/reducer.ts:3-21 | the initial state satisfies the bookkeeping invariant and the attempt range |
| Reducer.UnarrangedIsAvailable | src/client/game/reducer.ts:39-54 | under consistent bookkeeping, a correct token not yet arranged is still available |
| Reducer.ConsistentTokensDisjoint | src/client/game/reducer.ts:39-54 | under consistent bookkeeping the arrangement and the available tokens are repeat-free, and every arranged token is correct and no longer offered |
| Reducer.MoveTokenCounts | src/client/game/reducer.ts:49-54 | moving the only available copy of a token to the arrangement keeps the combined multiset and shortens the available list by one |
| Reducer.AddArrangedKeepsBookkeeping | src/client/game/reducer.ts:49-54 | adding an available token keeps the arranged plus available tokens a rearrangement of the repeat-free shuffled tokens |
| Reducer.Dispatchable | src/client/game/App.tsx:81-333 | which actions the client dispatches in a state: SET_ROUND_DATA with distinct correct tokens and shuffled tokens rearranging them, ADD_ARRANGED of a correct token not yet arranged, DECREMENT_ATTEMPTS with more than one attempt left, any other action freely; its SET_ARRANGED clause (a rearrangement of the arrangement) and SET_AVAILABLE_TOKENS clause (completes the arrangement to the shuffled tokens) are assumptions, see "## Left out" |
| Reducer.DispatchKeepsInvariant | src/client/game/reducer.ts:23-100 | every action the client can dispatch in a state keeps the bookkeeping and attempts between 1 and 3 |
| Reducer.RunKeepsInvariant | src/client/game/reducer.ts:23-100 | any sequence of such actions keeps the invariant |
| Reducer.ReachableInvariant | src/client/game/reducer.ts:3-100 | every state reachable from the initial state through such actions satisfies the invariant; the round bound `round < totalRounds` is not part of it, since INIT copies any stored round and SET_TOTAL_ROUNDS can lower the count, and `ContinueRoundAdvances` states it for CONTINUE_ROUND |
| GameApp.PositionMatches | src/client/game/App.tsx:23-26 | the positional count over the first m positions is at most m |
| GameApp.Overlap | src/client/game/App.tsx:30-32 | the overlap count is at most the length of the guess |
| GameApp.Evaluate | src/client/game/App.tsx:20-41 | the score is NaN exactly when there are no correct tokens, and `isClose` holds exactly when the score is a number in [0.5, 1) |
| GameApp.EvaluateGuess | src/client/game/App.tsx:20-41 | the two counting loops compute exactly `Evaluate(correct, guess)` |
| GameApp.PositionMatchesAll | src/client/game/App.tsx:23-26 | every position matches exactly when the two prefixes are equal |
| GameApp.OverlapOfCorrectTokens | src/client/game/App.tsx:30-32 | a guess made of correct tokens overlaps at every position, repeats included |
| GameApp.BlendIsOne | src/client/game/App.tsx:35 | the 70/30 blend of two counts out of n is 1 exactly when both counts are n |
| GameApp.ScoreBounds | src/client/game/App.tsx:21-35 | with at least one correct token and a guess no longer than that, the score is a number between 0 and 1 |
| GameApp.PerfectScoreIffExact | src/client/game/App.tsx:20-41 | for a full arrangement the score is 1 exactly when the arrangement is the correct order |
| GameApp.ExactGuess | src/client/game/App.tsx:20-41 | the correct order scores 1 and is not close |
| GameApp.RearrangementScore | src/client/game/App.tsx:28-35 | a rearrangement of the correct tokens scores 0.3 + 0.7 * pos / n |
| GameApp.ReversedFour | src/client/game/App.tsx:20-41 | four distinct tokens reversed score 0.3 and are not close |
| GameApp.SwappedFirstTwo | src/client/game/App.tsx:20-41 | four distinct tokens with the first two swapped score 0.65 and are close |
| GameApp.RepeatedToken | src/client/game/App.tsx:30-35 | the overlap counts repeats: the first of four distinct tokens guessed four times scores 0.475 |
| GameApp.HandleSubmit | src/client/game/App.tsx:134-166 | nothing is dispatched exactly when the arrangement is incomplete; a decrement happens only with more than one attempt left; progress is saved exactly when a guess is scored; only DECREMENT_ATTEMPTS or SUBMIT_GUESS is dispatched |
| GameApp.Points | src/client/game/App.tsx:147-149 | the points `newScore` are NaN exactly when the guess's score is NaN |
| GameApp.SubmitDecision | src/client/game/App.tsx:139-166 | with comma-free tokens, a full arrangement costs an attempt exactly when more than one is left and it is wrong; otherwise it is scored, and the next round, the new score and `Math.max` of high score and new score are saved |
| GameApp.SavedScoreIsReducerScore | src/client/game/App.tsx:150-163 | a scored submission saves the score the reducer then holds, the next round, and `Math.max` of the high score and that score |
| GameApp.EmptyRoundPoisonsScore | src/client/game/App.tsx:143-163 | submitting a round with no tokens dispatches a NaN score and NaN points and saves NaN as score and high score; the reducer's score becomes NaN |
| GameApp.RealScoreStaysReal | src/client/game/App.tsx:143-163 | in a round with tokens a real score stays real: the saved score is the old score plus the points, and the saved high score is the larger of the high score and that |
| GameApp.LastAttemptScored | src/client/game/App.tsx:139-153 | on the last attempt every full arrangement is scored |
| GameApp.SubmitKeepsInvariant | src/client/game/App.tsx:134-153 | what a submission dispatches is allowed and keeps the reducer's invariant, so attempts never drop below 1 |
| GameApp.PressesUntilScored | src/client/game/App.tsx:139-153 | pressing with an unchanged full arrangement is scored after at least one and at most as many presses as there are attempts left |
| GameApp.ScoredByThirdPress | src/client/game/App.tsx:139-153 | from a fresh round's 3 attempts, the third press at the latest is scored |
| GameApp.OnDragEnd | src/client/game/App.tsx:235-243 | only ADD_ARRANGED of the dragged token is dispatched, and only for a correct token not yet arranged |
| GameApp.DropAcceptedIffAvailable | src/client/game/App.tsx:235-243 | under consistent bookkeeping with non-empty tokens, a drop is accepted exactly when it lands on the drop zone with a token still on offer |
| GameApp.DropKeepsArrangementDistinct | src/client/game/App.tsx:235-243 | after a drop, accepted or not, the bookkeeping is consistent and the arrangement is repeat-free |
| GameApp.BuiltRoundTokens | src/client/game/App.tsx:115-126 | the tokens of a built round are distinct, dealt as a rearrangement of themselves, non-empty and comma-free |
| GameApp.LoadedRoundIsReady | src/client/game/App.tsx:119-126 | loading such tokens is an allowed SET_ROUND_DATA and gives a round ready to play: invariant kept, tokens non-empty and comma-free |
| GameApp.ReadyRoundArrangementCommaFree | src/client/game/App.tsx:139 | in a round ready to play the arranged tokens are comma-free too, so `SubmitDecision` applies |

## Left out

- HTTP, storage and host-platform calls are not modelled:
  - the server routes, progress storage and reddit calls in `src/server/`;
  - the `fetch` chains and toasts of `App.tsx`;
  - the `/api/save` request itself. `HandleSubmit` returns the progress it would send.
- The effect that loads a round is not modelled (App.tsx:96-132). What that
  effect relies on is stated by `GameApp.BuiltRoundTokens` and
  `GameApp.LoadedRoundIsReady`.
- React rendering, dark mode, `handleReply` and the splash screen are not
  modelled. The drag-and-drop components are thin wrappers over a library.
- `arrayMove` is a library call. `Reducer.Dispatchable` assumes that the
  SET_ARRANGED payload it produces is a rearrangement of the arrangement.
- The client never dispatches SET_AVAILABLE_TOKENS. `Reducer.Dispatchable`
  allows it only with a payload that completes the arrangement to the shuffled
  tokens.
- The reducer's `default` branch is not modelled: the action datatype has no
  other cases.
- GameApp.HandleSubmit: takes the points `newScore` of a real score as the
  input `points`. It does not compute them from the score, because the source
  rounds with `toFixed`, which is IEEE and decimal rounding. A NaN score gives
  NaN points, as `toFixed` formats it as "NaN".
- GameApp.Evaluate: computes the score over exact reals. It does not capture
  double rounding, which could move a score that lies exactly on the 0.5 or 1
  boundary.
- DataGen.StripEmojis: takes the Unicode `Extended_Pictographic` property as
  the parameter `pictographic`, a table the model does not contain.
- DataGen.ToLower: lower-cases the ASCII letters only. Full Unicode case
  mapping is a table.
- Mulberry32.Rng: carries the state modulo 2^32. This matches the source while
  the double `seed + k * 0x6d2b79f5` stays below 2^53 in magnitude. Past that,
  JavaScript addition loses low bits.
- Mulberry32.SwapIndex: computes `Math.floor(r * (i + 1))` over reals. This is
  exact in doubles because r has 32 significant bits and i + 1 is below 2^21.
- Counts in the game state (round, round count, attempts) are JavaScript
  numbers that only ever hold integers, so they are modelled as `int`. Scores
  are a real or NaN, since an empty round scores `0 / 0`.
- The NaN saved by `/api/save` is sent as JSON `null`. What the server stores
  and the `|| 0` that INIT applies on the next load are not modelled.
- `filterComments` scans the comments in the order `createPost` collects them
  (src/server/core/post.ts:26-39); nothing reorders them first. The seed
  `Date.now() % 100000` that `createPost` passes is a parameter of the model.
- The source reads `cleaned.length` in UTF-16 code units. The model counts
  characters outside the Basic Multilingual Plane as two code units.
