# Minesweeper engine and game service, in Dafny

This project models the core of a single-player Minesweeper HTTP service: the
board engine (`generateBoard`, `clickCell` with its recursive flood fill
`solve`, `flagCell`, `weHaveWinner`) and the game service above it
(`CreateGame` with its normalisation of the requested settings, `CreateUser`,
the `Click` state machine `ready -> in_progress -> over | won`, and the `Board`
projection). The repository holds two generations of both files: the current one
under `internal/services/` and an older one under `services/`. They differ only
in error texts and a few checks, so one model covers both. A `Generation` value
selects the differences: the older generation uses one combined existence
check, refuses an empty username in `CreateUser`, and words its messages differently: its engine texts are the current ones capitalised, and its service texts are other sentences.

The model has two layers.

* The specification layer holds datatypes, functions and lemmas:
  * `Cells` holds the cell codes.
  * `Grids` holds boards as `seq<seq<char>>`, the 8-neighbourhood, the mine count and the win test.
  * `FloodFill` holds the reveal and what it does.
  * `Rules` holds the engine operations on a game record.
  * `Store` holds the key-value store as a `map<string, Entry>`.
  * `ServiceRules` holds each service operation as a function. Each function returns the reply paired with the store contents afterwards.
* The imperative layer works the way the Go code does:
  * `Engine.Game` is a class whose board is an `array2<char>`. Its methods rewrite that board and the game's fields in place, using the same loops and the same recursion as the Go code.
  * `Service.GameService` drives `Engine.Game` objects over a `Store.Repo`, a class whose `SaveGame` and `SaveUser` may fail.
  * Every method is proved to leave exactly the state, and give exactly the reply, that the specification function gives.
* `Scenarios` replays the repository's two engine tests and two short games through the imperative engine, and runs a request without a board through the service's `CreateGame`.

Cell codes: 'E'/'M' are veiled empty/mine, 'e'/'m' flagged, 'B' a revealed blank, '1'..'8' a revealed
count, 'X' the detonated mine. The random source of `generateBoard` is a finite stream of draws
`(a, b)`, each standing for the pair `Intn(Rows)`, `Intn(Cols)` and landing on `(a % Rows, b % Cols)`.
The ksuid name, the clock readings and the store's success are parameters.

The model follows the code on these points:

* `Click` checks the existence of the keys and reads the game before it validates the click kind.
* Clicking a flagged cell is an error in both generations; neither generation treats it as a no-op.
* A requested mine count of zero becomes 15, and a negative count is kept (no mine is planted).
* `generateBoard` does not stop on its own when asked for more mines than cells. `CreateGame` never asks for that.
* The flood fill also enters flagged empty cells ('e').

## Model

| member | source | states |
|---|---|---|
| Cells.Digit | internal/services/game_engine.go:52-55 | the digit written for k adjacent mines (1..8) is the character '0' + k, between '1' and '8' |
| Cells.ToggleFlag | internal/services/game_engine.go:101-108 | a veiled cell stays veiled, flips whether it is flagged and keeps whether it holds a mine; any other cell is returned unchanged |
| Grids.DirectionTo | internal/services/game_engine.go:39 | the eight direction vectors enumerate the 8-neighbourhood, each adjacent cell exactly once |
| Grids.AdjacentMinesCountsNeighbourhood | internal/services/game_engine.go:45-51 | the count of solve's first loop equals the number of on-board adjacent cells holding 'M' or 'm' (the off-board ones are skipped, not wrapped) |
| Grids.RevealCode | internal/services/game_engine.go:52-59 | the code solve writes is 'B' exactly when no adjacent mine exists; it is never veiled, never a mine and never blocks a win |
| Grids.SameMinesSameCode | internal/services/game_engine.go:45-51 | the count depends only on where the mines are, so flags and earlier reveals do not change it |
| FloodFill.Reveal | internal/services/game_engine.go:42-68 | solve keeps the board's shape, and each call on a veiled empty cell lowers the number of 'E'/'e' cells, so the recursion ends and no cell is entered twice |
| FloodFill.RevealNeighbours | internal/services/game_engine.go:62-67 | solve's second loop keeps the shape and never raises the number of 'E'/'e' cells |
| FloodFill.RevealVeiled | internal/services/game_engine.go:43-68 | solve on a veiled empty cell changes only veiled empty cells, each to its own code, and leaves no new blank next to a veiled empty cell |
| FloodFill.RevealAround | internal/services/game_engine.go:62-67 | after the recursion loop around a blank, none of its neighbours is veiled empty, and only veiled empty cells were rewritten |
| FloodFill.RevealAroundVeiled | internal/services/game_engine.go:64-65 | the loop's step that recurses into a veiled empty neighbour keeps those two facts |
| FloodFill.AllNeighboursSettled | internal/services/game_engine.go:62-67 | a cell whose eight directions were all checked has no veiled empty neighbour |
| FloodFill.RevealMeetsPost | internal/services/game_engine.go:42-68 | clicking a non-mine cell leaves three facts. The target shows its code. Every other cell is unchanged, or was 'E'/'e' and shows its code. Every new blank has no veiled empty neighbour |
| FloodFill.RevealIsLeast | internal/services/game_engine.go:42-68 | the other direction: any board meeting RevealPost shows, on every cell the flood fill changes, what the flood fill writes there. So the flood fill's board is the least one meeting RevealPost, and it changes only cells reached from the click through new blanks |
| FloodFill.RevealWithin | internal/services/game_engine.go:43-68 | solve entered on a veiled empty cell that a board meeting RevealPost also changed changes only cells that board changes, and moves no mine |
| FloodFill.RevealAroundWithin | internal/services/game_engine.go:62-67 | the recursion loop around a cell that such a board leaves settled changes only cells that board changes |
| FloodFill.RevealAroundVeiledWithin | internal/services/game_engine.go:64-65 | a veiled empty neighbour of a settled cell was changed by such a board, so recursing into it stays within that board's changes |
| FloodFill.RevealKeepsMines | internal/services/game_engine.go:62-66 | the flood fill never rewrites a mine, so each cell keeps whether it holds one and the count of 'M'/'m'/'X' is unchanged |
| FloodFill.NoMinesAmong | internal/services/game_engine.go:45-51 | on a board without mines every count is zero |
| FloodFill.BlankSpreads | internal/services/game_engine.go:62-67 | on a board of 'E' and 'B' where no blank touches a veiled empty cell, one blank makes every cell blank |
| FloodFill.MineFreeRevealIsTotal | internal/services/game_engine.go:42-68 | a click anywhere on a board of 'E' cells only reveals every cell as 'B' |
| Rules.EmptyBoard | internal/services/game_engine.go:17-23 | the first phase yields Rows rows of Cols cells, all 'E' |
| Rules.Plant | internal/services/game_engine.go:26-34 | the planting loop keeps the shape; it plants at most Mines; it stops only once Mines are planted or the draws are used up; with Mines <= 0 it plants nothing |
| Rules.PlantCounts | internal/services/game_engine.go:30-33 | the counter advances only on a cell not yet 'M', so the 'M' count grows by exactly the number planted |
| Rules.PlantCells | internal/services/game_engine.go:26-34 | the loop turns exactly the drawn cells into 'M' and leaves every other cell as it was |
| Rules.PlantStep | internal/services/game_engine.go:28-33 | one turn of the loop keeps its invariant: finishing from the new state gives the whole outcome |
| Rules.PlantDone | internal/services/game_engine.go:27 | when the loop stops, the invariant gives the outcome |
| Rules.GenerateBoard | internal/services/game_engine.go:15-35 | a Rows x Cols board where a cell is 'M' exactly when it was drawn, and 'E' otherwise, and the number of 'M' cells equals the number of mines planted |
| Rules.GenerateBoardPlantsAll | internal/services/game_engine.go:26-34 | rejection sampling plants exactly Mines distinct mines once the draws offer that many distinct cells |
| Rules.DrawnAreMined | internal/services/game_engine.go:30-31 | once the draws are used up, every drawn cell is a mine |
| Rules.ClickCell | internal/services/game_engine.go:70-92 | errors exactly on an out-of-bounds or flagged target, and changes nothing then. Clicks grows by one exactly when the target was 'M' or 'E'. The status becomes over exactly on a mine. Only the board, Clicks and Status change |
| Rules.ClickCellEffect | internal/services/game_engine.go:84-90 | a mine becomes 'X', the status becomes over and nothing else changes; any other cell is revealed as RevealMeetsPost states, with the status kept |
| Rules.FlagCell | internal/services/game_engine.go:95-111 | errors exactly out of bounds. Otherwise the target becomes its toggled code, every other cell and every field is unchanged, and a revealed cell is left as it is |
| Rules.ClickKeepsMines | internal/services/game_engine.go:80-90 | a click moves no mine, so the count of 'M'/'m'/'X' is unchanged |
| Rules.ClickKeepsWellFormed | internal/services/game_engine.go:84-90 | after a click on a game that is not over, an 'X' appears only with status over |
| Rules.MineHitIsNeverWin | internal/services/game_engine.go:113-125 | a board after a mine hit is never a win, and its status is over |
| Rules.FlagKeepsMines | internal/services/game_engine.go:101-108 | flagging moves no mine and keeps the count of 'M'/'m'/'X'; it keeps a well-formed game well formed |
| Rules.FlagTwiceRestores | services/game_engine.go:103-109 | flagging the same in-bounds cell twice gives back the game unchanged |
| Engine.Game.constructor | services/game_engine_test.go:11-15 | a request game: the given name, user and settings, zero counters, no board; the status is Ready, standing for the empty status of a decoded request |
| Engine.Game.Load | internal/repository/redis_repo.go:105-116 | a game read from the store becomes a fresh object whose state is exactly the stored record |
| Engine.Game.Prepare | internal/services/game.go:80-88 | writes the settled name, settings, creation time and status ready, and leaves the board and other fields alone |
| Engine.Game.GenerateBoard | internal/services/game_engine.go:15-35 | a fresh Rows x Cols buffer holding the board Rules.GenerateBoard describes; the other fields are unchanged |
| Engine.Game.FillVeiled | internal/services/game_engine.go:17-23 | the nested loops set every cell of the buffer to 'E' |
| Engine.Game.PlantMines | internal/services/game_engine.go:26-34 | the planting loop leaves the buffer as Rules.Plant describes and reports the draws it used |
| Engine.Game.PlantOne | internal/services/game_engine.go:28-33 | one turn turns the drawn cell into 'M' and advances the count exactly when the cell was not 'M' already; otherwise the buffer is unchanged; the loop invariant is kept |
| Engine.Game.ClickCell | internal/services/game_engine.go:37-93 | the in-place clickCell gives the reply and the new state of Rules.ClickCell; on an error, nothing changes |
| Engine.Game.Detonate | internal/services/game_engine.go:80-88 | the click counts, only the target becomes 'X', and the status becomes over |
| Engine.Game.Uncover | internal/services/game_engine.go:80-90 | a click on 'E' counts, then the buffer becomes the revealed board |
| Engine.Game.MinesAround | internal/services/game_engine.go:45-51 | the loop's count is the adjacent mine count of the cell |
| Engine.Game.Solve | internal/services/game_engine.go:43-68 | the recursive in-place solve leaves the buffer equal to FloodFill.Reveal of the old board |
| Engine.Game.SolveAround | internal/services/game_engine.go:62-67 | the second loop leaves the buffer equal to FloodFill.RevealNeighbours |
| Engine.Game.SolveNeighbour | internal/services/game_engine.go:63-66 | one pass leaves the buffer equal to the reveal of the neighbour in direction d when that neighbour is on the board and 'E'/'e', and unchanged otherwise |
| Engine.Game.FlagCell | internal/services/game_engine.go:95-111 | the in-place flagCell gives the reply and the new state of Rules.FlagCell |
| Engine.Game.WeHaveWinner | internal/services/game_engine.go:113-125 | true exactly when no cell is 'E', 'e' or 'X' |
| Store.LookupGame | internal/repository/redis_repo.go:92-118 | a missing key gives game-not-found; a key holding a user gives an error; otherwise the stored game |
| Store.LookupConsistent | internal/repository/redis_repo.go:92-118 | a game read from a consistent store is well formed and carries its key as its name |
| Store.SaveKeepsConsistent | internal/repository/redis_repo.go:39-59 | saving a well-formed game under its name, or a user under its username, keeps the store consistent |
| Store.Repo.constructor | internal/repository/redis_repo.go:29-33 | a new repository is empty |
| Store.Repo.Exists | internal/repository/redis_repo.go:120-130 | true exactly when the key holds a value |
| Store.Repo.GetGame | internal/repository/redis_repo.go:92-118 | the reply of Store.LookupGame |
| Store.Repo.SaveGame | internal/repository/redis_repo.go:39-59 | either the game replaces the value under its name, or the store is unchanged and false is returned |
| Store.Repo.SaveUser | internal/repository/redis_repo.go:78-90 | either the user replaces the value under its username, or the store is unchanged and false is returned |
| ServiceRules.ErrorText | internal/services/game.go:43-182 | every error a generation can raise has a text, other than the store's own errors, and no other error has one |
| ServiceRules.Dimension | internal/services/game.go:47-74 | a dimension of 0 takes the default, then the maximum clamp, then the minimum clamp; the result lies in the bounds, and a requested value inside them is kept |
| ServiceRules.NormalizeBounds | internal/services/game.go:47-78 | rows and columns lie in [2, 30] as Dimension gives them; a nonzero count of at most rows*columns remains; a count of 0 becomes 15 unless the board is smaller; a nonzero count that fits is kept, negatives included; a larger count is lowered to rows*columns |
| ServiceRules.NormalizeIdempotent | internal/services/game.go:47-78 | normalising settled settings again changes nothing |
| ServiceRules.NewGame | internal/services/game.go:46-89 | the new game is well formed and ready. It carries the normalised settings, the request's name or the generated one, the creation time and a generated board. The other fields are the request's |
| ServiceRules.NewGameIsFresh | internal/services/game.go:88-89 | a new game's cells are all 'E' or 'M', with exactly Mines 'M' once the draws offer that many cells |
| ServiceRules.CreateGameOutcome | internal/services/game.go:40-97 | an unknown username fails with user_not_found and writes nothing. The call succeeds exactly when the user exists and the save succeeds, and the new game is then stored under its name. A failed save gives "error saving game" |
| ServiceRules.CreateGameKeepsConsistent | internal/services/game.go:89-96 | CreateGame keeps the store consistent |
| ServiceRules.CreateUserOutcome | services/game.go:102-113 | the older generation refuses an empty username first, then an existing key is refused, and both write nothing; otherwise the stamped user is stored under its username, or the save fails |
| ServiceRules.CreateUserAddsOneKey | internal/services/game.go:99-106 | a successful CreateUser adds exactly one new key and changes no existing entry; the store stays consistent |
| ServiceRules.CheckKeys | internal/services/game.go:113-118 | the current generation reports game_not_found, then user_not_found; the older one reports one combined error; no error exactly when both keys exist |
| ServiceRules.ClickOutcome | internal/services/game.go:112-166 | the first failing check decides the error. Every error writes nothing. Success means one write of the returned game under its key. A failed read returns the store's error. Any kind other than click/flag is refused after the read. An engine error passes through as the reply |
| ServiceRules.PlayOutcome | internal/services/game.go:131-165 | past the kind check, an error writes nothing and success writes once |
| ServiceRules.PlayAccepted | internal/services/game.go:155-165 | after an accepted move the outcome is the settled game saved under its key, or the failed write; the store stays consistent either way |
| ServiceRules.ClickSucceeded | internal/services/game.go:112-166 | a successful click read a well-formed game and went through the status step, the engine move and the time and win update, in that order |
| ServiceRules.ClickNeverReady | internal/services/game.go:131-135 | an accepted click never leaves the game ready; a first click stamps the start time |
| ServiceRules.DispatchKeepsStart | internal/services/game.go:145-153 | the engine move keeps the start time, and keeps the status unless a mine goes off |
| ServiceRules.FinishedGamesRefuse | internal/services/game.go:137-143 | an over game answers game_over and a won game answers game_won, and neither writes anything |
| ServiceRules.ClickWonIffWin | internal/services/game.go:155-159 | after a successful click the status is won exactly when weHaveWinner holds on the board |
| ServiceRules.ClickKeepsConsistent | internal/services/game.go:161-165 | Click keeps the store consistent: the saved game is well formed and sits under its own name |
| ServiceRules.SettledWellFormed | internal/services/game.go:145-159 | the move and the time and win update keep a started game well formed |
| ServiceRules.ClickKeepsMineCount | internal/services/game.go:145-153 | a successful click or flag keeps the stored count of 'M'/'m'/'X' cells |
| ServiceRules.MineHitEndsGame | internal/services/game.go:145-148 | a click on a veiled mine of a ready or running game is accepted and stored with status over |
| ServiceRules.Project | internal/services/game.go:185-194 | the projection has the board's rows and row lengths, and each cell becomes the one-character string of its code |
| ServiceRules.ProjectLossless | internal/services/game.go:187-193 | two boards with the same projection are equal |
| ServiceRules.BoardOutcome | internal/services/game.go:168-207 | the same key checks as Click, then the read, whose failure returns the store error; a game without a board gives the no-board error; otherwise the projection of the stored board |
| ServiceRules.ProjectAsWritten | internal/services/game.go:186 | the projection as written fails exactly when the board has more rows than columns, and otherwise agrees with Project |
| ServiceRules.BoardPanicsOnTallGames | internal/services/game.go:186 | a 3 x 2 game that CreateGame accepts and saves makes the projection as written fail, while BoardOutcome projects all three rows |
| Service.GameService.constructor | internal/services/game.go:36-38 | the service holds the given repository |
| Service.GameService.CreateGame | internal/services/game.go:40-97 | accepts any request object, with or without a board. The reply and the store are those of CreateGameOutcome for the save's actual result. A known user's request object becomes the new game with a board of its settings, an unknown user's is untouched, and the store stays consistent |
| Service.GameService.Launch | internal/services/game.go:89-96 | generates the board in place, then saves: on success the game is stored under its name, otherwise "error saving game" and no write |
| Service.GameService.CreateUser | services/game.go:102-113 | the reply and the store are those of CreateUserOutcome for the save's actual result |
| Service.GameService.Exists | internal/services/game.go:108-110 | true exactly when the key holds a value |
| Service.GameService.CheckKeys | services/game.go:120-122 | the existence checks give ServiceRules.CheckKeys for the service's generation |
| Service.GameService.Click | internal/services/game.go:112-166 | the reply and the store are those of ClickOutcome for the save's actual result, and the store stays consistent |
| Service.GameService.Play | internal/services/game.go:131-143 | the stored game loaded into the engine: a ready game starts, an over or won game is refused, then the move |
| Service.GameService.Advance | internal/services/game.go:145-165 | the engine move, the time and win update, and one save, as PlayOutcome states |
| Service.GameService.Finish | internal/services/game.go:155-159 | sets the time spent since the start, and the status won exactly when weHaveWinner holds |
| Service.GameService.Move | internal/services/game.go:145-153 | click goes to clickCell, flag to flagCell, and any other kind changes nothing; an engine error leaves the game unchanged |
| Service.GameService.Board | internal/services/game.go:168-207 | the reply of BoardOutcome |
| Service.NormalizeSettings | internal/services/game.go:46-78 | the step-by-step defaults, maximum, minimum and mine clamp give Normalize, with rows and columns in [2, 30] |
| Service.BoardToStrings | internal/services/game.go:185-194 | the nested append loops build exactly the projection of the board |
| Scenarios.MineFreeFourByFour | services/game_engine_test.go:11-16 | the test fixture: a valid 4 x 4 game, zero clicks, every cell 'E' whatever the random source; its empty status is modelled as Ready |
| Scenarios.ClickOutOfBounds | services/game_engine_test.go:10-21 | a click at (4, 4) on the 4 x 4 fixture is refused as out of bounds |
| Scenarios.ClickWithinBounds | services/game_engine_test.go:23-34 | a click at (3, 3) on the 4 x 4 fixture succeeds |
| Scenarios.ClearMineFreeBoard | internal/services/game_engine.go:58-67 | one click at (0, 0) on the mine-free 4 x 4 board blanks all sixteen cells, counts one click and is a win |
| Scenarios.ClearedAtOnce | internal/services/game_engine.go:43-68 | on a board of 'E' cells only, one reveal blanks every cell and the board is a win |
| Scenarios.LoseOnFirstClick | internal/services/game_engine.go:84-88 | clicking the mine of a 2 x 2 board gives the board ["XE", "EE"], status over, and no win |
| Scenarios.CreateFromRequest | internal/services/game.go:40-97 | a registered user's request with settings inside the bounds, which carries no board, is accepted: the request object becomes a ready game with those settings and a board of that shape |

`FloodFill.RevealUnfolds`, `Rules.ClickCellDetonates`, `Rules.ClickCellReveals` and `ServiceRules.NewGameSteps` are helpers: each unfolds one definition for the imperative proofs and has no row of its own.

## Left out

- HTTP handlers, routing, logging and JSON encoding are not modelled. `Board` returns the projected rows; turning them into JSON, and the encoding error, are not part of this model.
- The Redis store is modelled as a map from keys to users or games. A game and its board are one entry, whereas Redis keeps the board under a second key, `<name>-Board`. A user named `<game>-Board` can therefore not collide with a board here. In Go, `Exists("<game>-Board")` is true once the game is saved. So Go's `CreateGame`, `Click` and `Board` accept `<game>-Board` as a username, where the model replies that the user is not found. Go's `Click` and `Board` on the game name `<game>-Board` fail when the board bytes are decoded as a game, where the model replies that the game is not found.
- Store.Repo.SaveGame: when a write fails, the store is unchanged. The Redis code may already have deleted or rewritten the `-Board` key by then, and that partial write is not modelled.
- Store.Repo.Exists: a connection error, which the Redis code reports as false, is not modelled.
- Store.Repo.constructor: the store starts empty, and the service proofs assume it holds only what the service wrote (every game well formed and under its own name). A Redis store that already holds foreign or malformed entries is not modelled. An example is a board whose shape does not match its Rows and Cols; Go would panic or misread on it.
- Store.LookupGame: the store errors are reduced to "missing" and "unreadable". Their texts are not modelled, which is why `ErrorText` gives none for them.
- Rules.GenerateBoard: the random source is a finite stream. If the stream runs out before Mines mines are planted, the loop stops, where Go would keep drawing. `GenerateBoardPlantsAll` says when the count is exact.
- Rules.GenerateBoard: it requires Rows > 0 and Cols > 0 when Mines > 0, because `Intn(0)` panics in Go. It also requires non-negative Rows and Cols, because `make` panics in Go.
- Engine.Game.GenerateBoard: the same two limits apply.
- Clocks are opaque integers. `TimeSpent` is the difference of two readings, and the start reading is taken even when it is not used. The ksuid name is a parameter.
- Engine.Game.constructor: a request decoded from JSON, like the zero-value game of the engine tests, has the empty status "". The model has no empty status and uses Ready for it. `CreateGame` overwrites it with "ready", and the engine never reads it.
- Status is one of the four values the code writes. A stored game with any other status string is not modelled. Go would play such a game as if it were in progress.
- A zero-row board stands for the nil board. A non-nil empty board, which `Board` would index out of range, is not modelled. `CreateGame` never produces one.
- The older generation's User record names its time field `CreatedOn`, while its service writes `CreatedAt`. `Domain.User` has one `createdAt` field.
- The older generation's `Points` field is not modelled. No core operation reads or writes it.
- Service.GameService.CreateGame: the reply is stated as the error, or success plus the game object, rather than the Go pointer. The normalised settings are computed on locals and written back in one step, where Go writes each field as it goes. No caller can observe the difference.
- Service.GameService.Click: each service call is modelled as one atomic step. The Go code does not serialise its read-modify-write of one game: it reads the game, changes it in memory and writes it back, with no lock and no compare-and-swap. So two concurrent clicks on one game can lose an update. A click that read the game while it was in progress can overwrite the saved Over state and reopen a finished game. `ServiceRules.FinishedGamesRefuse` and `ServiceRules.ClickKeepsMineCount` hold only when calls on one game run one at a time.
- Service.GameService.Click: the reply and the store are proved to be one of the two outcomes. Which one depends on whether the store accepted the write, and that choice is not under the service's control. The same holds for CreateGame and CreateUser.
- Calling `clickCell` directly on an 'X' cell is modelled as the code does it: `solve` overwrites the cell. `Click` never reaches that path, because an 'X' appears only on a game that is over, and the service refuses clicks on such games.
- Integer widths: after clamping, no value in these operations comes near 64 bits, so Go's `int` is modelled as an unbounded integer.

## Findings

| source | as written | input that shows it | evidently intended | confidence | as-written member | corrected member |
|---|---|---|---|---|---|---|
| internal/services/game.go:186 | `make([][]string, len(data), len(data[0]))` uses the column count as the capacity, and Go panics when the length exceeds the capacity (the older generation does the same at services/game.go:188) | a game created with rows 3 and cols 2, which `CreateGame` accepts, then any `Board` request for it | a slice of len(data) rows, one per board row, whatever the shape | high, not executed | ServiceRules.ProjectAsWritten, ServiceRules.BoardPanicsOnTallGames | ServiceRules.Project, used by ServiceRules.BoardOutcome and Service.BoardToStrings |
