# Sportdle game core in Dafny

This project models the core of the Sportdle game service (`GameService` in
`src/game/game.service.ts`). Sportdle is a daily motorsport word puzzle.
The core has two independent pieces:

- **Guess evaluation** (`validateGuess`): Wordle-style scoring. The guess and
  the secret word are upper-cased, and a length mismatch is rejected. A letter
  multiset of the word is built. The first pass marks exact positions
  `correct` and takes them out of the multiset. The second pass goes left to
  right and marks a letter `present` while copies of it are left, otherwise
  `absent`. The answer lists `{letter, state}` per position and says whether
  the guess is the word.
- **Stats accumulation** (the update part of `submitGame`, and `getUserStats`):
  one player's record of games played and won, current and best streak, guess
  distribution, last played date and completed puzzles. A submission for a
  puzzle already completed is rejected. The win percentage is derived on read.

Files:

- `wrappers.dfy`: `Option` and `Result`.
- `guess_evaluation.dfy`: module `GuessEvaluation`. `StateAt` and `Expected`
  give a closed-form definition of the classification. Position i is
  `Present` exactly when fewer earlier non-exact positions carry the same
  letter than copies of it remain after the exact matches.
  `ValidateGuess` is the two-pass algorithm over a `map<char, int>` of letter
  counts and an `array` of states. It is proved to produce `Expected`. The
  lemmas prove what the scoring promises.
- `win_percentage.dfy`: module `WinPercentage`. This is `Math.round(won /
  played * 100)` as integer round-half-up, `(200 * won + played) / (2 *
  played)`. It is specified as the nearest integer to the exact ratio.
- `player_stats.dfy`: module `PlayerStats`. The class `UserStats` holds the
  record's fields, and `Submit` updates them in place. A ghost `history` of all
  recorded completions is kept beside the fields. `Valid()` ties every field
  to a summary of that history that is defined apart from the update code.
  Streaks are characterised by `StreakIsLongestWinningRun` and
  `BestIsLargestStreak`. Calendar dates are integer day numbers, so
  "yesterday" of day `d` is `d - 1`. Puzzle ids are strings that are only
  compared for equality.

`validateGuess` has four `forEach` loops (`src/game/game.service.ts:284`,
`290`, `298` and `306`). The first three are modelled as three methods that
`ValidateGuess` calls in order (`CountLetters`, `MarkExactPositions`,
`MarkPresentLetters`). The fourth, which builds the result, stays inline. In
`submitGame`, the streak update on a win is the method `WinStreaks`. It
continues the streak when the last played date is the day before or the same
day, and otherwise starts it at 1, also when there is no last played date.

The service does not reject out-of-range attempts. The range 1..6 is checked
only by the submission DTO (`src/game/dto/submit-game.dto.ts:10-13`), so
`Submit` requires it.

## Model

| member | source | states |
|---|---|---|
| GuessEvaluation.ValidateGuess | src/game/game.service.ts:270-317 | Rejected with LengthMismatch exactly when the guess and word lengths differ. Otherwise the answer carries the upper-cased guess and one entry per position with the guessed letter and the reference classification `Expected`. An entry is Correct iff the letters at that position agree. `isCorrect` holds iff guess == word, and iff every entry is Correct. |
| GuessEvaluation.CountLetters | src/game/game.service.ts:279-286 | The counts map gives, for every letter, its number of occurrences in the word (0 when absent), and every letter of the word is a key. |
| GuessEvaluation.MarkExactPositions | src/game/game.service.ts:288-295 | After the first pass a position is Correct iff guess and word agree there, otherwise still Absent. Each letter's count drops by exactly its number of exact matches. |
| GuessEvaluation.MarkPresentLetters | src/game/game.service.ts:297-303 | After the second pass every position holds its reference classification StateAt. A non-exact position is Present iff copies of its letter remain after the exact matches and after the earlier Present positions. |
| GuessEvaluation.ExactAtMostOccurrences | src/game/game.service.ts:283-295 | Exact matches of a letter never outnumber its occurrences in the word, so the letter counts never go negative after the first pass. |
| GuessEvaluation.CreditedPrefix | src/game/game.service.ts:288-303 | Over the first i positions, the credited copies of a letter are its exact matches plus the smaller of its misses and its remaining copies. |
| GuessEvaluation.NoOverCrediting | src/game/game.service.ts:283-303 | No over-crediting: for every letter, the entries marked Correct or Present with that letter are at most its occurrences in the word. |
| GuessEvaluation.PresentLeftToRight | src/game/game.service.ts:298-303 | Present is assigned left to right. If a later non-exact position with letter L is Present, every earlier non-exact position with L is Present too. |
| GuessEvaluation.NoSharedLettersAllAbsent | src/game/game.service.ts:289-303 | A guess sharing no letter with the word is Absent at every position. |
| GuessEvaluation.SameWordAllCorrect | src/game/game.service.ts:289-295 | A word scored against itself is Correct at every position. |
| GuessEvaluation.SpeedEraseExample | src/game/game.service.ts:283-311 | Guess ERASE against word SPEED scores Present, Absent, Absent, Present, Present: the second E is credited from the word's second E. |
| WinPercentage.RoundedPercent | src/game/game.service.ts:140 | For played > 0 the result r is the integer nearest to 100 * won / played, halves rounding up: 2·played·r <= 200·won + played < 2·played·(r+1). It is at most 100 when won <= played. |
| WinPercentage.Percentage | src/game/game.service.ts:167-170 | 0 when no game was played; otherwise the rounded percentage as above, at most 100 when won <= played. |
| WinPercentage.PercentageExtremes | src/game/game.service.ts:167-170 | Winning every game gives 100 and winning none gives 0. |
| PlayerStats.StreakIsLongestWinningRun | src/game/game.service.ts:96-130 | The current streak is the length of the longest run at the end of the history of wins each played the day after, or the same day as, the game before. This holds as an if-and-only-if for every run length. |
| PlayerStats.BestIsLargestStreak | src/game/game.service.ts:125-127 | The best streak is at least the current streak after every prefix of the history, and equals it after some prefix. |
| PlayerStats.HistoryBounds | src/game/game.service.ts:85-130 | Wins never exceed games played, and the current streak <= best streak <= wins. |
| PlayerStats.DistributionAddsUp | src/game/game.service.ts:91-94 | With attempts in 1..6, only keys 1..6 carry wins, and the per-key counts add up to the number of wins. |
| PlayerStats.DistributionStep | src/game/game.service.ts:91-94 | Setting distribution[attempts] to its old value (0 if absent) plus 1 on a win, and leaving it alone on a loss, keeps the distribution equal to the per-attempts win counts of the extended history. |
| PlayerStats.LossResetsStreak | src/game/game.service.ts:128-130 | After a loss the current streak is 0 and the best streak is unchanged. |
| PlayerStats.WinContinuesOrRestartsStreak | src/game/game.service.ts:97-127 | After a win the streak is one more than before if the previous game was the day before or the same day, otherwise 1. The best streak is at least the new streak and never lower than before. |
| PlayerStats.SummaryIsBounded | src/game/game.service.ts:85-94 | Fields that summarize a history keep gamesWon <= gamesPlayed and currentStreak <= maxStreak <= gamesWon. Distribution keys are in 1..6 with positive counts, and the counts sum to gamesWon. |
| PlayerStats.RecordStep | src/game/game.service.ts:85-132 | One recorded completion with the field updates of submitGame takes fields that summarize a history to fields that summarize the history extended by that completion, and the bounds hold. |
| PlayerStats.WinStreaks | src/game/game.service.ts:96-127 | On a win the new streak is one more than the old when the last played day is the day before or the same day, and 1 otherwise, including when nothing was played before. The best streak becomes the larger of the old best and the new streak. |
| PlayerStats.UserStats.constructor | src/game/game.service.ts:67-77 | The lazily created record has every counter 0, an empty distribution, no last played date, no completed puzzles and an empty history. |
| PlayerStats.UserStats.Report | src/game/game.service.ts:164-174 | The report copies the counters and distribution. Its win percentage is in [0, 100], is 0 when no game was played, and is otherwise the rounded share of wins. |
| PlayerStats.UserStats.Submit | src/game/game.service.ts:79-145 | A puzzle already completed is rejected with nothing changed. Otherwise gamesPlayed rises by 1 and the puzzle id is appended. gamesWon and distribution[attempts] rise by 1 only on a win, and no other key changes. The streak follows the rules above: 1 with no last date, +1 if contiguous, otherwise 1, and 0 on a loss. maxStreak becomes max(old, new streak) on a win. lastPlayedDate becomes the puzzle's day. The returned report equals Report(), so the unguarded division is safe. Valid() is kept. |
| PlayerStats.UserStatsReport | src/game/game.service.ts:148-175 | A player without a record gets all zeros and an empty distribution. A stored record gets its Report(). Any report has a win percentage in [0, 100], currentStreak <= maxStreak <= gamesWon <= gamesPlayed, and only distribution keys 1..6 with positive counts. |
| PlayerStats.RepeatedSubmissionIsRejected | src/game/game.service.ts:79-86 | Submitting the same puzzle twice to a fresh record: the first submission succeeds with gamesPlayed 1, the second is rejected as already completed, and gamesPlayed stays 1. |

## Left out

- Puzzle lookup by date, with its "not found" errors, in `validateGuess`, `submitGame` and `getTodaysPuzzle` (`src/game/game.service.ts:21-61, 258-268`). These are database queries. The model receives the found puzzle's word, or its id and day.
- Reading and saving the stats record (`findOne`, `save`, `new this.userStatsModel`). This is persistence. The record is an in-memory object, and the null case of `getUserStats` is a null reference.
- JavaScript `Date` handling, the UTC normalisation, and the mix of local and UTC getters at lines 51-54 and 98-111. Dates are abstract day numbers, and "yesterday" is the day number minus one.
- Atomicity of the read-check-save sequence between concurrent submissions. This is a concurrency and storage concern.
- Admin puzzle operations (`createPuzzle`, `listAllPuzzles`, `getPuzzleByDate`), authentication, users, controllers, modules and the puzzle seed data. None of this is the game core.
- WinPercentage.RoundedPercent: rounds the exact ratio, not the floating-point value `won / played * 100`. For ratios such as 29/200, floating point lands just below .5 and JavaScript rounds down where the model rounds up.
- GuessEvaluation.ValidateGuess: upper-casing covers the ASCII letters `a`-`z` only. JavaScript's full Unicode `toUpperCase`, which can change a string's length, is not modelled. The inputs are uppercase letters anyway: the guess by the guess DTO, and the word by puzzle creation.
- PlayerStats.UserStats.Submit: attempts are taken as integers. The DTO uses `@IsNumber()` with `@Min(1)` and `@Max(6)` but not `@IsInt()`, so it also admits fractions in [1, 6]. The sum over keys 1..6 (`Total(dist) == won` in `Bounded`, and `DistributionAddsUp`) relies on integer attempts. A fractional number of attempts would be a distribution key that this sum misses.
- Mongoose `Map` key handling in `guessDistribution` and its `Object.fromEntries` serialisation. Mongoose maps are keyed by strings while the service passes a number. The model uses a `map<int, nat>` with integer keys, and does not model how the library converts them.
