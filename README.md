# Snake: verified model of the tick engine, the score relay's sanitizer and the page's score rules

This project is a Dafny model of a browser Snake game. It has three parts.

- **The tick engine** (`snake-logic.js`, module `SnakeLogic`). This is a pure state machine over a square grid.
  - `createInitialState` lays a three-cell snake across the middle of the board, heading right.
  - `placeFood` scans the board row by row and drops the food on a random free cell. It gives no food when the board is full.
  - `withDirection` buffers a turn. It ignores unknown names and exact reversals.
  - `advance` moves the snake one cell. It ends the game on leaving the board or running into the body, and on eating it grows the snake, scores one point and re-places the food.
  - `togglePause` pauses and resumes.
- **The score relay's `sanitize`** (`leaderboard-worker/src/index.js`, module `Leaderboard`). It turns any list a client sends into at most 500 clean records. It drops malformed elements, normalizes names, avatars and dates, keeps the first record of each `name|avatar|score|date` key, sorts by score and then by date, and cuts the list to 500.
- **The page's score rules** (`app.js`, module `App`). These are:
  - the tick speed for a score;
  - the player-name and avatar normalization;
  - the local top-10 leaderboard insert;
  - the once-per-game high-score gate.

  The page's module-level variables are the fields of class `App.App`.

Shared pieces sit in their own modules:

- `Text` holds JavaScript's `String.prototype.trim`, the order of `<` on strings (compared character by character), and decimal rendering of integers.
- `Ranking` holds the score record, the leaderboard order and the top-k cut shared by the relay and the page.

Each operation has a partner:

- `placeFood` and `advance` are loop/step methods. Each is proved equal to a specification function (`FoodChoice`, `NextState`), and the game's properties are proved as lemmas about those functions.
- The de-duplicating `forEach` of `sanitize` is a loop method proved equal to `FirstOccurrences`.
- The page's state changes are methods of `App.App` that keep the invariant `Valid()`. That invariant covers a valid game, at most ten leaderboard entries, a high score equal to the first entry's score, and known avatars.

Randomness is the value `u` in [0, 1) that `Math.random()` (or the test's `randomFn`) returns. The index is `floor(u * n)`, exactly as `randomInt` computes it, so every draw of the source is a draw of the model. `FoodChoiceReachesEveryFreeCell` shows that every free cell can be chosen. Dates are strings passed in by the caller.

Two points about the game's rules:

- **Self-bite ends the game.** Running into the body ends the game; the snake is never truncated.
- **One food, one point.** The code has a single food worth one point, with no obstacles and no weighted foods. `app.js` reads `state.obstacles`, but the engine never sets it.

## Model

| member | source | states |
|---|---|---|
| Text.TrimStart | leaderboard-worker/src/index.js:14 | the result is a suffix of the input; everything removed is JS whitespace; the result does not start with whitespace |
| Text.TrimEnd | leaderboard-worker/src/index.js:14 | mirror of TrimStart at the end of the string |
| Text.Trim | app.js:336 | `trim()` never lengthens its input, and its result is empty or has no whitespace at either end |
| Text.TrimSpec | app.js:336 | what `trim()` keeps is one slice `s[i..j]` of the input, with only whitespace before `i` and after `j` |
| Text.TrimEmptyIffBlank | app.js:336-337 | trimming gives the empty string exactly when every character is whitespace |
| Text.StrLessIrreflexive | leaderboard-worker/src/index.js:29 | no date string is `<` itself |
| Text.StrLessTotal | leaderboard-worker/src/index.js:29 | `<` on strings is asymmetric and total on distinct strings |
| Text.StrLessTransitive | app.js:348 | `<` on strings is transitive |
| Text.NatToDecimal | leaderboard-worker/src/index.js:22 | the rendering is a non-empty run of digits with no leading zero |
| Text.NatToDecimalRoundTrip | leaderboard-worker/src/index.js:22 | reading the rendered digits back gives the number |
| Text.NatToDecimalInjective | leaderboard-worker/src/index.js:22 | different non-negative numbers have different digit strings |
| Text.IntToDecimalInjective | leaderboard-worker/src/index.js:22 | different scores render as different text inside the key |
| Text.IntToDecimal | leaderboard-worker/src/index.js:22 | the rendering starts with `-` exactly for negative scores |
| Leaderboard.KeyDeterminesEntry | leaderboard-worker/src/index.js:22 | when no name or avatar contains `\|`, two records with the same key are the same record, so only true duplicates are merged |
| Ranking.NormalizeName | leaderboard-worker/src/index.js:14 | the cleaned name is never empty and at most 16 long |
| Ranking.NormalizeNameSpec | leaderboard-worker/src/index.js:14 | the name is the trimmed input cut to its first 16 characters, or "Player" exactly when the trimmed input is empty |
| Ranking.Precedes | leaderboard-worker/src/index.js:27-30 | a higher score always comes first, and a record never comes before one with a higher score |
| Ranking.PrecedesTotal | leaderboard-worker/src/index.js:27-30 | of any two records, one may come first in leaderboard order |
| Ranking.PrecedesTransitive | app.js:346-349 | leaderboard order (score descending, then later date first) is transitive |
| Ranking.Insert | leaderboard-worker/src/index.js:27-30 | inserting into a sorted list keeps it sorted and adds exactly the new record |
| Ranking.SortByRank | leaderboard-worker/src/index.js:26-30 | the sort returns a permutation of its input in leaderboard order |
| Ranking.TopRanked | app.js:346-351 | sort and `slice(0, k)`: the result has min(n, k) records, is sorted, is drawn from the input, and every dropped record is ranked behind every kept one |
| Ranking.HighScoreOf | app.js:352 | 0 for an empty board, otherwise the first record's score, which on a sorted board is at least every score |
| SnakeLogic.Name | snake-logic.js:10-15 | each direction's name looks up to that direction in `DIRECTIONS` |
| SnakeLogic.DirectionNamed | snake-logic.js:10-15 | only the four names "up", "down", "left" and "right" denote a direction |
| SnakeLogic.Vector | snake-logic.js:10-15 | every direction is a unit step along exactly one axis |
| SnakeLogic.IsOppositeDirection | snake-logic.js:27-33 | only two different known names can be opposite |
| SnakeLogic.OppositeSymmetric | snake-logic.js:27-33 | `isOppositeDirection(a, b) == isOppositeDirection(b, a)` |
| SnakeLogic.OppositeExactlyReversals | snake-logic.js:27-33 | opposite exactly for up/down and left/right in either order; false when a name is unknown |
| SnakeLogic.RandomIndex | snake-logic.js:35-37 | `floor(u * n)` is an index below `n` for every draw in [0, 1) |
| SnakeLogic.RandomIndexHits | snake-logic.js:35-37 | the draw `k / n` selects index `k` |
| SnakeLogic.FreeCells | snake-logic.js:40-50 | the scanned cells are exactly the in-bounds cells off the snake |
| SnakeLogic.FreeCellsIncreasing | snake-logic.js:42-50 | the scan lists the free cells in strictly increasing row-major order (row first, then column) |
| SnakeLogic.FoodChoice | snake-logic.js:39-53 | no food exactly when the snake covers every cell; otherwise the food is an in-bounds cell off the snake |
| SnakeLogic.FoodChoiceFirstFree | snake-logic.js:42-52 | with the draw 0 the food is the first free cell in row-major order |
| SnakeLogic.FoodChoiceReachesEveryFreeCell | snake-logic.js:51-52 | every free cell is the food for some draw |
| SnakeLogic.PlaceFood | snake-logic.js:39-53 | the nested row/column scan with an occupied set returns FoodChoice |
| SnakeLogic.InitialState | snake-logic.js:55-78 | three cells, heading right with the same buffered direction, score 0, running, not paused |
| SnakeLogic.CreateInitialState | snake-logic.js:55-78 | the method computing the start position and placing food returns InitialState |
| SnakeLogic.StartSnakeHead | snake-logic.js:58-61 | the head starts at (floor(n / 2), floor(n / 2)) |
| SnakeLogic.StartSnakeOnBoard | snake-logic.js:58-64 | on a board of size at least 4 the start snake is on the board, distinct, and leaves (0, 0) free |
| SnakeLogic.InitialStateValidIff | snake-logic.js:57-66 | the initial state satisfies the engine invariant exactly when the effective grid size (`gridSize \|\| 16`) is at least 4 |
| SnakeLogic.EffectiveGridSize | snake-logic.js:57 | a given non-zero size is kept; a missing or zero size becomes 16, so the size is never 0 |
| SnakeLogic.StartSnake | snake-logic.js:58-64 | three cells, each one step left of the one before, so moving right extends the line |
| SnakeLogic.WithDirection | snake-logic.js:80-84 | unknown names and the reverse of `direction` leave the state unchanged; otherwise only `nextDirection` changes, to the named direction |
| SnakeLogic.ResolvedDirection | snake-logic.js:98-101 | the move direction is `nextDirection` or `direction` and is never the reverse of `direction`; a buffered turn that is not a reversal is always taken |
| SnakeLogic.WithDirectionSteers | snake-logic.js:80-101 | an accepted turn is the direction the next tick moves in |
| SnakeLogic.NextHeadPosition | snake-logic.js:86-89 | the next head is never the current head |
| SnakeLogic.OutOfBounds | snake-logic.js:91-93 | a board of size 0 or less has no cell (FreeCells shows the scan visits exactly the cells that are not out of bounds) |
| SnakeLogic.Eats | snake-logic.js:111-112 | in a valid state the cell being eaten is never part of the snake |
| SnakeLogic.BodyToCheck | snake-logic.js:113 | the cells to avoid are the snake or the snake without its tail, and the tail is included exactly when eating |
| SnakeLogic.NextState | snake-logic.js:95-137 | a finished or paused game is left as it is; the board size and pause flag never change; the snake grows by at most one cell, and the score rises by exactly what the snake grows |
| SnakeLogic.Advance | snake-logic.js:95-137 | the method (clone, unshift, pop, local score and food) returns NextState |
| SnakeLogic.AdvanceFrozen | snake-logic.js:96 | a finished or paused game is returned unchanged |
| SnakeLogic.AdvanceOffBoard | snake-logic.js:107-109 | leaving the board sets `gameOver` and the resolved direction and changes nothing else |
| SnakeLogic.AdvanceSelfCollision | snake-logic.js:111-117 | hitting the checked body sets `gameOver` and the resolved direction and changes nothing else |
| SnakeLogic.AdvanceMoves | snake-logic.js:119-136 | a plain move gives `[head] + snake[..n-1]`, same length, score and food; `gameOver` exactly when there is no food; both directions become the resolved one |
| SnakeLogic.AdvanceEats | snake-logic.js:119-136 | eating gives `[food] + snake`, score + 1, food re-placed over the grown snake, and `gameOver` exactly when the grown snake fills the board |
| SnakeLogic.TailCellIsFree | snake-logic.js:113 | in a valid state, moving into the cell the tail leaves is legal and does not end the game |
| SnakeLogic.AdvanceScoreAndLength | snake-logic.js:119-127 | one tick adds at most one point and never shortens the snake |
| SnakeLogic.AdvancePreservesValid | snake-logic.js:95-137 | a tick keeps the snake distinct and on the board, the food on the board and off the snake, and food present while the game runs |
| SnakeLogic.TogglePause | snake-logic.js:139-142 | a finished game is unchanged; otherwise only `paused` flips |
| SnakeLogic.TogglePauseTwice | snake-logic.js:139-142 | pausing twice restores the state |
| SnakeLogic.InputsPreserveValid | snake-logic.js:80-84 | turning and pausing keep the engine invariant |
| SnakeScenarios.FirstTickMovesRight | tests/snake-logic.test.js:13-19 | on a fresh 8 x 8 game the first tick moves the head one cell right, whatever the food draw |
| SnakeScenarios.TurnUpMovesToRowThree | tests/snake-logic.test.js:21-26 | after turning up on a fresh 8 x 8 game, the head moves to row 3 |
| SnakeScenarios.WallEndsGame | tests/snake-logic.test.js:28-41 | the right-edge snake on a 4 x 4 board ends the game |
| SnakeScenarios.CoilEndsGame | tests/snake-logic.test.js:43-63 | the coiled snake turning left ends the game |
| SnakeScenarios.EatingGrowsAndScores | tests/snake-logic.test.js:65-79 | eating scores 1, grows to 4 cells, and with draw 0 places the food at (0, 0) |
| SnakeScenarios.FoodAvoidsTopRow | tests/snake-logic.test.js:81-92 | with the top row of a 3 x 3 board taken, food is placed and lies below it |
| Leaderboard.Normalize | leaderboard-worker/src/index.js:13-18 | cleaned name, score kept, avatar and date defaulted when they are not strings |
| Leaderboard.Kept | leaderboard-worker/src/index.js:12 | only objects are kept, and never one whose name is not a string or whose score is not a finite number |
| Leaderboard.Normalized | leaderboard-worker/src/index.js:12-18 | the filter-map stage is never longer than its input |
| Leaderboard.NormalizedSpec | leaderboard-worker/src/index.js:12-18 | the filter-map stage is no longer than its input, every record comes from a kept element, and every kept element contributes one |
| Leaderboard.FirstOccurrencesKeys | leaderboard-worker/src/index.js:20-24 | de-duplication keeps every key and never lengthens the list |
| Leaderboard.FirstOccurrencesDistinct | leaderboard-worker/src/index.js:20-24 | no two de-duplicated records share a key |
| Leaderboard.FirstOccurrencesFirst | leaderboard-worker/src/index.js:23 | each kept record is the first occurrence of its key in input order |
| Leaderboard.Key | leaderboard-worker/src/index.js:22 | the key starts with the name and a separator, and ends with a separator and the date |
| Leaderboard.FirstOccurrences | leaderboard-worker/src/index.js:20-24 | de-duplication never lengthens the list and only keeps records from it |
| Leaderboard.Unique | leaderboard-worker/src/index.js:12-24 | the de-duplicated records are no more than the input elements and have pairwise different keys |
| Leaderboard.Dedup | leaderboard-worker/src/index.js:20-24 | the `forEach` into the insertion-ordered map returns FirstOccurrences |
| Leaderboard.DrawnFromFirstOccurrences | leaderboard-worker/src/index.js:20-31 | any sub-multiset of the de-duplicated list has distinct keys and consists of first occurrences |
| Leaderboard.SanitizedFacts | leaderboard-worker/src/index.js:12-31 | what survives is key-distinct, no longer than the kept input, made of first occurrences of cleaned kept elements, with names of 1 to 16 characters |
| Leaderboard.Sanitize | leaderboard-worker/src/index.js:9-32 | a non-array gives []; otherwise the result is sorted, key-distinct, at most 500 long and exactly min(500, distinct keys) long, drawn from the de-duplicated records, and ranks ahead of every record it drops |
| Leaderboard.KeyCollision | leaderboard-worker/src/index.js:22 | two different records can share a key when any of name, avatar or date contains `\|`, and then the second is dropped |
| App.TickMsForScore | app.js:218-221 | the tick is at least 60 ms, at most 170 ms for non-negative scores, and is 60 or 170 - 4 * floor(score / 2) |
| App.TickMsMonotone | app.js:218-221 | a higher score never gives a longer tick |
| App.TickMsFloor | app.js:4-5 | the tick is 60 ms exactly from score 56 on |
| App.NormalizePlayerName | app.js:335-338 | the name is non-empty and at most 16 characters |
| App.NormalizePlayerNameDefault | app.js:335-338 | a missing, empty or whitespace-only name becomes "Player"; any other keeps its first (at most) 16 trimmed characters |
| App.AvatarOrDefault | app.js:381 | the result is one of the six avatars: the given one when known, the snake otherwise |
| App.AvatarOrDefaultIdempotent | app.js:279 | normalizing an already normalized avatar changes nothing |
| App.StoredProfile | app.js:265-267 | a loaded profile has a 1 to 16 character name and a known avatar |
| App.TopRankedHighScore | app.js:340-352 | after the top-10 cut the high score is the best score of the old board plus the new record, and belongs to one of them |
| App.FreshGameValid | app.js:27 | every 16 x 16 game the page starts satisfies the engine invariant |
| App.NewGame | app.js:27 | `createInitialState({ gridSize: 16 })` gives the engine's initial state, a valid game with score 0 |
| App.App.constructor | app.js:27-55 | a fresh 16 x 16 game, the stored board cut to 10, the high score from its first entry, the stored profile and its avatar selected |
| App.App.SetSelectedAvatar | app.js:381-382 | the selected avatar becomes the given one if known, otherwise the snake |
| App.App.UpsertScore | app.js:340-355 | the board becomes the top 10 of old board plus the new record, sorted; the high score is its first score and bounds every score seen |
| App.App.HandleGameOver | app.js:357-362 | only the first call of a game acts; it latches the flag and, when the score beats the high score, makes it pending with the profile's avatar selected |
| App.App.SavePendingHighScore | app.js:416-425 | with a score pending: the profile becomes the normalized typed name and the selected avatar, the board takes the record, nothing stays pending; otherwise nothing changes |
| App.App.Tick | app.js:143-156 | the game takes one engine step and the speed follows the score; the gate latches exactly when the game has just ended, and then a score above the high score becomes pending with the profile's avatar selected; otherwise pending score and avatar are unchanged; board, high score and profile are untouched |
| App.App.HandleDirection | app.js:203-207 | while input is locked or the game is over a turn is ignored; otherwise the engine buffers it, and the game stays valid |
| App.App.PressPause | app.js:649-654 | while input is locked the key is ignored; otherwise the engine toggles the pause, and the game stays valid |
| App.App.Restart | app.js:191-201 | a fresh game at the base speed with the gate re-armed and nothing pending; board, profile and avatar kept |

## Left out

- Rendering, the DOM grid, status text, modals and the mapping of keys and buttons to directions are left out. `isInputLocked()` (menu shown, countdown running or high-score form open) is the parameter `inputLocked` of `App.App.HandleDirection` and `App.App.PressPause`; the menu, countdown and form are UI state.
- Web Audio, speech, background music and its autoplay retry are left out: they are sound output only.
- The `setInterval` scheduling of ticks and of the countdown, and `window.advanceTime`, are left out: they are event-loop timers and floating-point rounding. `App.App.Tick` is one timer callback.
- localStorage, `JSON.parse` and `JSON.stringify` are left out: they are persistence through browser APIs. The constructor takes the stored leaderboard as already-parsed records and the profile as an optional name and avatar. The filter and map of `loadLeaderboard` are not modelled: `stored` stands for their output, and the constructor applies the cut to 10.
- App.StoredProfile: a stored name that is truthy but not a string makes `trim` throw, so the page falls back to the default profile. That throw is not modelled; a non-string name is treated like a missing one.
- The relay's `fetch` handler is left out: it is asynchronous HTTP plus a key-value store.
- `Math.random` is the draw `u`. Floating-point rounding of `u * n` is not modelled (exact real arithmetic), and neither are draws outside [0, 1).
- `new Date().toISOString()` is left out as the wall clock; dates are caller-supplied strings compared character by character.
- Scores are integers. Fractional scores, and the distinction between finite and non-finite numbers beyond dropping non-finite ones, are not modelled. Non-integer scores would render differently inside the de-duplication key.
- Text.StrLess: JavaScript's `<` compares UTF-16 code units, while the model compares Dafny characters by code point. The two orders differ between a character above U+FFFF (a surrogate pair, code units from U+D800) and one in U+E000-U+FFFF; dates made by `toISOString` contain neither.
- SnakeLogic.NextState and SnakeLogic.Advance require a non-empty snake for a running game. On an empty snake the source throws a `TypeError` reading `snake[0].x`; the engine invariant `Valid` already rules that state out.
- Strings are sequences of characters. `slice(0, 16)` counts UTF-16 code units, so a name containing characters outside the Basic Multilingual Plane is cut differently by the page than by the model.
- Direction names inherited from `Object.prototype` (for example `"toString"`) pass `DIRECTIONS[name]` in JavaScript. They are not modelled: they are treated as unknown names.
- Ranking.SortByRank: `Array.prototype.sort` with a comparator that never returns 0 leaves the order of records with equal score and equal date to the engine. The model fixes one order (insertion sort) and only claims what every correct sort gives: a permutation in leaderboard order.
- In `openHighScoreModal`, the branch for a page without the high-score form (which saves the score at once under the profile name) is not modelled. Filling in the form's text and focusing the input are UI.
- Obstacles, multiple foods, weighted foods and tail truncation on self-bite do not exist in the engine code and are not modelled.
