# Flag quiz game: session state machine and leaderboard, in Dafny

This project models the logic of a browser flag-guessing quiz. The player is shown a
country flag and picks its country from four options. A correct answer scores
`10 * (streak + 1)` and extends the streak. A wrong answer resets the streak and costs
one of three lives. The game is over when the last life is lost. A finished game is
recorded on a top-10 leaderboard.

Modules:

- `FlagsData` (`flags_data.dfy`): the constant flag catalog `flagsData` and its
  well-formedness. Each record has four distinct options, and its own country is one
  of them.
- `GameSession` (`game_session.dfy`): the ten pieces of component state as one
  `Session` value. It holds the transitions of `startGame`, `handleOptionSelect`,
  the `bestStreak` effect and `nextFlag`, and reset. It states the session invariant
  (`Consistent`, `Valid`), the scoring rule, game-over and the properties of event
  sequences (`Play`).
- `FlagLearningGame` (`flag_learning_game.dfy`): the component itself. The class
  `Game` has the ten `useState` fields and one method per handler. Each method is
  proved to make exactly the `GameSession` transition. The module also models which
  screen is rendered, which events the screen offers, the answer buttons of a round
  and the props handed to the leaderboard at game over.
- `QuizOption` (`quiz_option.dfy`): `getVariant` and the `disabled` rule of an
  answer button.
- `Scoreboard` (`scoreboard.dfy`): the top-10 insert
  `[...scores, newEntry].sort((a, b) => b.score - a.score).slice(0, 10)` and the
  guard that decides whether an entry is recorded. `Array.prototype.sort` is stable
  (section 23.1.3.30 of ECMA-262, 2023 edition). It is modelled as a stable insertion
  sort, and `StableSortIsUnique` proves that every stable descending sort gives the
  same result.
- `Wrappers` (`wrappers.dfy`): `Option`, for `null`/`undefined` values.

React runs the `bestStreak` effect after the render that follows the handler. So an
answer click is two transitions: the handler (`SelectOption`, which keeps the session
`Consistent`) and then the effect (`TrackBestStreak`, which restores `Valid`, in which
`bestStreak >= streak`). `AnswerRound` is the two together.

Three behaviours of the code that the model keeps:

- `startGame` only sets `gameStarted`. The first round is always catalog index 0; no
  round is picked at random.
- `nextFlag` has no guard of its own. It can be reached only through the next-flag
  button, which is rendered only on the round screen once the answer is revealed.
  `Offered` and `OfferedStepKeepsReachable` model that.
- The game-over test reads `lives` as it was when the handler started (the closure
  value). So `lives <= 1` before the decrement means that lives reach 0.

## Model

| member | source | states |
|---|---|---|
| `FlagsData.CatalogWellFormed` | src/components/FlagLearningGame.tsx:32-93 | the catalog has 10 records with unique ids; each has exactly 4 pairwise distinct options, and its country is among them |
| `FlagsData.CountryOccursOnce` | src/components/FlagLearningGame.tsx:32-93 | in a well-formed record the country occurs exactly once among the options |
| `GameSession.InitialValid` | src/components/FlagLearningGame.tsx:96-105 | the initial state (not started, index 0, all counters 0, 3 lives, no selection, not revealed, not over) satisfies the session invariant |
| `GameSession.AnswerPoints` | src/components/FlagLearningGame.tsx:135 | a correct answer is worth at least 10 points |
| `GameSession.StreakPointsClosedForm` | src/components/FlagLearningGame.tsx:135 | a run of n correct answers from a zero streak is worth 10 + 20 + ... + 10n = 5n(n+1) |
| `GameSession.StartGame` | src/components/FlagLearningGame.tsx:108-115 | starting sets `gameStarted` and leaves the other nine fields as they were |
| `GameSession.SelectOption` | src/components/FlagLearningGame.tsx:126-162 | ignored while revealed or game over; otherwise selects and reveals the option and counts one more answer; never changes the round index, `gameStarted` or `bestStreak` |
| `GameSession.TrackBestStreak` | src/components/FlagLearningGame.tsx:119-124 | the effect leaves `bestStreak` at least `streak` and at least its old value, equal to one of the two; no other field changes |
| `GameSession.NextFlag` | src/components/FlagLearningGame.tsx:164-170 | moves to round `i`, clears the selection and the reveal, and leaves score, streak, lives, answers and game over unchanged |
| `GameSession.AnswerIgnoredWhenRevealedOrOver` | src/components/FlagLearningGame.tsx:127 | an answer while revealed or after game over changes no field |
| `GameSession.CorrectAnswer` | src/components/FlagLearningGame.tsx:129-137 | a correct answer adds exactly 10 * (streak + 1), increments streak and answers, leaves lives and game over unchanged, and makes `bestStreak` = max(bestStreak, streak + 1) |
| `GameSession.WrongAnswer` | src/components/FlagLearningGame.tsx:143-146 | a wrong answer sets streak to 0, costs one life, increments answers, and leaves score and best streak unchanged |
| `GameSession.GameOverExactlyWhenLastLifeLost` | src/components/FlagLearningGame.tsx:153-154 | after an answer the game is over if and only if it was already over, or the answer was accepted, wrong and given with lives <= 1 |
| `GameSession.SelectOptionKeepsConsistent` | src/components/FlagLearningGame.tsx:126-162 | from a valid session the handler keeps the index in the catalog and lives in [0, 3], with 0 lives exactly at game over; a reveal always has a selection; the score covers the points of the current and the best streak |
| `GameSession.TrackBestStreakRestoresValid` | src/components/FlagLearningGame.tsx:120-124 | after the effect `bestStreak` = max(old bestStreak, streak), so `bestStreak >= streak` holds again |
| `GameSession.AnswerRoundKeepsValid` | src/components/FlagLearningGame.tsx:119-162 | an answer click followed by the effect keeps the full session invariant |
| `GameSession.NextFlagKeepsValid` | src/components/FlagLearningGame.tsx:164-170 | moving to any catalog index keeps the session invariant |
| `GameSession.StepKeepsValid` | src/components/FlagLearningGame.tsx:108-188 | every handler (start, answer with effect, next flag, reset) keeps the session invariant |
| `GameSession.Play` | src/components/FlagLearningGame.tsx:108-188 | any sequence of events from a valid session ends in a valid one: lives in [0, 3], game over exactly at 0 lives, `bestStreak >= streak` |
| `GameSession.MonotonicUntilReset` | src/components/FlagLearningGame.tsx:126-170 | until the next reset, lives never increase, score and answers never decrease, and a finished game stays finished |
| `GameSession.ResetRestoresDefaults` | src/components/FlagLearningGame.tsx:172-182 | from any valid session, a reset yields exactly the initial values |
| `GameSession.CorrectRoundsScore` | src/components/FlagLearningGame.tsx:134-137 | n correct rounds from streak k add 10(k+1) + ... + 10(k+n), raise the streak to k + n and the answers by n, and cost no life |
| `GameSession.ThreeCorrectAnswersScore` | src/components/FlagLearningGame.tsx:135 | from a fresh streak the score after one, two and three correct rounds is 10, 10 + 20 and 10 + 20 + 30 higher, with streak 1, 2 and 3 |
| `GameSession.MissResetsMultiplier` | src/components/FlagLearningGame.tsx:135-145 | after a wrong answer the next correct answer scores 10 again |
| `FlagLearningGame.Game.constructor` | src/components/FlagLearningGame.tsx:96-105 | the ten fields start at their `useState` values, which satisfy the invariant |
| `FlagLearningGame.Game.StartGame` | src/components/FlagLearningGame.tsx:108-115 | the handler makes the `StartGame` transition on the fields |
| `FlagLearningGame.Game.HandleOptionSelect` | src/components/FlagLearningGame.tsx:126-162 | the handler's field updates, computed from the values at its start, make exactly the `SelectOption` transition and keep the fields consistent |
| `FlagLearningGame.Game.TrackBestStreak` | src/components/FlagLearningGame.tsx:119-124 | the effect makes the `TrackBestStreak` transition and restores the full invariant |
| `FlagLearningGame.Game.NextFlag` | src/components/FlagLearningGame.tsx:164-170 | with the drawn index in the catalog, the handler makes the `NextFlag` transition and keeps the invariant |
| `FlagLearningGame.Game.ResetGame` | src/components/FlagLearningGame.tsx:172-182 | from any state the handler sets every field back to its initial value |
| `FlagLearningGame.ScreenOf` | src/components/FlagLearningGame.tsx:192-246 | the welcome screen exactly when not started; the game over screen exactly when started and over; otherwise the round |
| `FlagLearningGame.OptionButtons` | src/components/FlagLearningGame.tsx:303-312 | one answer button per option of the current flag, in order: button k shows option k and is disabled exactly when the round is revealed |
| `FlagLearningGame.OfferedStepKeepsReachable` | src/components/FlagLearningGame.tsx:192-326 | through the screens, an answer is given only while not revealed and not over, and only for an option of the current flag; next flag only while revealed and not over; every offered event keeps the session reachable |
| `FlagLearningGame.OfferedPlayKeepsReachable` | src/components/FlagLearningGame.tsx:192-326 | any sequence of offered events keeps the session reachable: not started means initial; game over means revealed; a selection is an option of the current flag |
| `FlagLearningGame.RevealedButtons` | src/components/FlagLearningGame.tsx:303-312 | buttons are disabled exactly when revealed and plain before; a button is a success if and only if the round is revealed and it shows the flag's country (so exactly one is), and destructive if and only if the round is revealed and it shows the chosen option, which is not the country; some button is destructive if and only if the chosen option was wrong |
| `FlagLearningGame.FinishedGameEntry` | src/components/FlagLearningGame.tsx:235-240 | a finished game is recorded with its score, its best streak in the streak column and its answer count; the entry has at least 3 answers, a streak no longer than the answers, and at least 5n(n+1) points for streak n |
| `QuizOption.GetVariant` | src/components/QuizOption.tsx:22-27 | success if and only if revealed and correct (selected or not); destructive if and only if revealed, selected and wrong; outline if and only if not revealed, or neither correct nor selected |
| `QuizOption.Render` | src/components/QuizOption.tsx:29-43 | the button shows its option, is disabled exactly when revealed, and is always plain while enabled |
| `Scoreboard.Truncate` | src/components/Scoreboard.tsx:46 | the slice is a prefix of its input, of length min(length, 10) |
| `Scoreboard.InsertByScoreKeeps` | src/components/Scoreboard.tsx:44-45 | inserting adds exactly the new entry, and keeps a descending board descending |
| `Scoreboard.InsertByScoreStable` | src/components/Scoreboard.tsx:44-45 | on a descending board, the entries of every score keep their order, and the new entry comes after the old ones of its score |
| `Scoreboard.InsertByScoreAtEnd` | src/components/Scoreboard.tsx:44-45 | an entry scoring no more than every entry is appended |
| `Scoreboard.SortByScoreCorrect` | src/components/Scoreboard.tsx:45 | the sort returns a permutation of its input, in descending score order, in which the entries of every score keep their input order |
| `Scoreboard.SortByScoreOfDescending` | src/components/Scoreboard.tsx:45 | sorting a descending board leaves it unchanged |
| `Scoreboard.SameTiesSameBoard` | src/components/Scoreboard.tsx:45 | two descending boards with the same entries of every score, in the same order, are equal |
| `Scoreboard.StableSortIsUnique` | src/components/Scoreboard.tsx:45 | every stable descending sort of a board equals `SortByScore` |
| `Scoreboard.AddScoreProperties` | src/components/Scoreboard.tsx:44-46 | the insert returns min(\|scores\| + 1, 10) entries, descending, all from the old board or the new entry; ties keep their order, the new entry last among them; nothing is dropped below 10 entries; every dropped entry scores no more than every kept one |
| `Scoreboard.TruncateKeepsOrder` | src/components/Scoreboard.tsx:46 | cutting a descending board to ten keeps it descending and drops entries only |
| `Scoreboard.TruncateKeepsTies` | src/components/Scoreboard.tsx:46 | after the cut, the entries of each score are a prefix of those before it |
| `Scoreboard.TruncateDropsLowest` | src/components/Scoreboard.tsx:46 | an entry cut from a descending board scores no more than any entry kept |
| `Scoreboard.AddScoreToSortedBoard` | src/components/Scoreboard.tsx:44-46 | on a descending board, the insert places the new entry after every entry with a score at least its own, then cuts to ten |
| `Scoreboard.NewEntry` | src/components/Scoreboard.tsx:36-42 | an entry exists if and only if score, streak and flag count are all defined and a callback is supplied; it copies those three values exactly |
| `Scoreboard.RecordScore` | src/components/Scoreboard.tsx:35-48 | without a complete set of props the board is unchanged; with one, the new entry is inserted into the top 10 |
| `Scoreboard.FourScoresExample` | src/components/Scoreboard.tsx:44-46 | adding scores 50, 90, 30, 90 to an empty board yields 90, 90, 50, 30, with the first 90 ahead of the second |

## Left out

- Rendering, layout, icons, animation classes and the welcome and flag-card components. Only two parts of the rendering are modelled: which screen is shown and which buttons it offers.
- The `toast` notifications. They are fire-and-forget calls into a UI hook.
- `Math.random` in `nextFlag`. The drawn index is a parameter in `[0, 10)`, so uniformity is not modelled.
- Loading and saving the leaderboard in `localStorage`, with `JSON.parse` and `JSON.stringify`. This is browser I/O. The load has no error handling in the code.
- `new Date().toLocaleDateString()`. The date is an opaque string parameter.
- React scheduling. Each handler and each effect run is one atomic transition. The leaderboard's recording effect lists its own output `scores` among its dependencies, and the game passes a fresh `onNewScore` closure on each render. So React re-runs that effect after every update. `RecordScore` models one run, not the repeated re-insertion that follows. On mount the recording effect also runs in the same commit as the load effect, while `scores` is still the initial `[]`. So the saved board is replaced, in state and in `localStorage`, by a board holding only the new entry. This replacement is not modelled: `RecordScore` is always given the board as loaded.
- `onNewScore` is never called by the leaderboard. Only its presence matters, as a boolean.
- The default `false` values of the `QuizOption` props. The game always passes all three.
- The flag images. Each `flag` field is an opaque string.
- JavaScript number semantics. Scores and counters are unbounded integers, and reachable values stay far below 2^53.
- FlagLearningGame.Game.NextFlag: requires the class invariant and an in-range index. The code has no guard, but the next-flag button is offered only while revealed and not over.
