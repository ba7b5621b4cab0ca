# Tic-tac-toe rules, minimax search and turn logic in Dafny

This project models the logic of a browser tic-tac-toe game, `script.js`.
The game has three parts, and the model has three matching layers:

- **GameBoard.** One mutable array of nine cells.
  - The cells are indexed 0-8, row by row.
  - It validates and writes moves.
  - It detects a line in a fixed order of eight patterns: rows, then columns, then diagonals.
  - It reports fullness and the free cells, and hands out copies of itself.
- **Minimax.** An exhaustive, unpruned game-tree search.
  - `O` is always the maximiser and `X` the minimiser.
  - It scores +10 for an `O` line, -10 for any other line and 0 for a draw.
  - It explores by writing a marker into the array, recursing, and writing `null` back.
  - `getBestMove` returns the first empty cell, in ascending order, whose score is strictly greatest.
- **GameController.** Who is to move (`currentPlayer`), whether the game is on (`gameActive`), and how human clicks, bot moves, `initialize` and `restartGame` change them.

The Dafny files:

- `rules.dfy` (module `Rules`): the `Cell` type (`Empty` stands for the source's `null`), the eight `WinPatterns`, and the pure queries on a sequence of cells: `CheckWin`, `IsFull`, `AvailableMoves`, and `Place` (the board after a `placeMarker`).
- `board.dfy` (module `Board`): class `GameBoard`.
  - Its methods write the `array<Cell>` in place (`PlaceMarker`) or replace it (`ResetBoard`).
  - `GetBoard` returns a fresh copy.
- `search.dfy` (module `Search`): the search in two forms.
  - Pure functions state what it computes: `Evaluate`, `MinimaxValue`, and `BestMove`.
    - Each loop of the source is a fold with an accumulator: `MaxFrom`, `MinFrom` and `BestFrom`.
    - The loops read the children's values from `MoveValues`.
    - The recursion is bounded by the number of empty cells.
  - Methods run the search the source's way, on an array.
    - `Minimax` has two `for` loops, one for each side; `GetBestMove` has one.
    - Both call `PlayAndUndo`: write the marker, recurse, restore the cell.
    - They are proved to return the pure functions' values.
    - They are proved to leave the array as they found it.
- `control.dfy` (module `Control`): the turn logic.
  - The value-level state machine is `Session` with the step functions `Start`, `Click`, `BotMove` and `Restart`.
  - Its invariant is kept by every step: the roster is fixed, and an active game has no line and a free cell.
  - Class `GameController` holds the source's fields and the live `GameBoard`.
    - Each of its methods is proved to move its state exactly as the matching step function does.

Three behaviours of the source are easy to misread; the model keeps each as written:

- `restartGame` (script.js:336-341) resets only the board, and `currentPlayer` and `gameActive` keep their values. `Restart` and `GameController.RestartGame` do the same: a restart after a finished game leaves it finished.
- `getBestMove` and `minimax` (script.js:83-130) always search with `O` as the maximiser, whichever marker the bot plays. The model does the same.
- `makeBotMove` ignores `placeMarker`'s result (script.js:309). `BotMove` models this as written, and `BotMoveAlwaysPlaces` proves the placement cannot fail on an active game.

## Model

| member | source | states |
|---|---|---|
| `Rules.CheckWin` | script.js:29-46 | no result exactly when no pattern has three equal non-empty cells; otherwise the result's line is the first such pattern in row, column, diagonal order and its winner is that line's (non-empty) marker |
| `Rules.ScanFrom` | script.js:36-45 | the scan from pattern k finds nothing exactly when no later pattern is a line, and otherwise returns the first line from k on with its marker |
| `Rules.AvailableMoves` | script.js:48-53 | the result holds exactly the indices of empty cells, in strictly ascending order |
| `Rules.MovesUpTo` | script.js:49-52 | after the first n cells the fold's accumulator holds exactly the empty indices below n, strictly ascending |
| `Rules.FullIffNoMoves` | script.js:25-27 | the board is full exactly when no move is available |
| `Rules.IsFull` | script.js:25-27 | the `every` test of `isBoardFull` and of `minimax`'s draw check; stated by `FullIffNoMoves` and `GameBoard.IsBoardFull` |
| `Rules.Place` | script.js:17-23 | a placement writes the marker at the index exactly when the index is on the board and its cell is empty; no other cell changes, and a refused placement changes nothing |
| `Rules.EmptyBoardIsOpen` | script.js:12-15 | a reset board has nine cells, no line, and is not full |
| `Board.GameBoard.constructor` | script.js:8 | the board starts as nine empty cells in a fresh array |
| `Board.GameBoard.GetBoard` | script.js:10 | the result is a freshly allocated array with the live board's cells, so writes to it cannot reach the live board |
| `Board.GameBoard.ResetBoard` | script.js:12-15 | the live board becomes a fresh array of nine empty cells, and the returned snapshot is a different fresh array with the same cells |
| `Board.GameBoard.PlaceMarker` | script.js:17-23 | returns true exactly when the index is in 0..8 and that cell was empty; then that cell holds the marker; every other cell is unchanged, and on false the whole board is unchanged |
| `Board.GameBoard.IsBoardFull` | script.js:25-27 | the live board is full exactly when none of its nine cells is empty |
| `Board.GameBoard.CheckWin` | script.js:29-46 | no result exactly when the live board has no line; otherwise the reported cells are the first line in row, column, diagonal order and the winner is the marker on them |
| `Board.GameBoard.GetAvailableMoves` | script.js:48-53 | the result holds exactly the indices of the live board's empty cells, in strictly ascending order |
| `Search.Evaluate` | script.js:67-81 | the score is -10, 0 or 10; it is 0 exactly when there is no line; the first line in scan order decides it (10 for `O`, -10 otherwise); with lines of one marker only, 10 for `O` and -10 for `X` |
| `Search.MinimaxValue` | script.js:83-112 | every minimax value is one of -10, 0 and 10 |
| `Search.MoveValues` | script.js:91-97 | the value of playing any empty cell is one of -10, 0 and 10 |
| `Search.MaxFrom` | script.js:90-99 | the maximiser's loop ends with a score, or with its starting value when no empty cell remains to try |
| `Search.MinFrom` | script.js:101-110 | the minimiser's loop ends with a score, or with its starting value when no empty cell remains to try |
| `Search.MinimaxTerminal` | script.js:84-87 | any board with a line is worth its static score (the first line in scan order decides), whoever is to move; so only-`O` lines give 10 and only-`X` lines -10; a full board without a line is worth 0 |
| `Search.MaxFromIsMaximum` | script.js:90-99 | the maximiser's loop returns the greatest of its start value and the values of the empty cells it visits, and that value is one of them |
| `Search.MinFromIsMinimum` | script.js:101-110 | the minimiser's loop returns the least of its start value and the values of the empty cells it visits, and that value is one of them |
| `Search.MinimaxMaximises` | script.js:89-99 | on an open board with `O` to move, the value is at least that of playing `O` on any empty cell, and equals that of some empty cell |
| `Search.MinimaxMinimises` | script.js:100-111 | on an open board with `X` to move, the value is at most that of playing `X` on any empty cell, and equals that of some empty cell |
| `Search.BestFromCorrect` | script.js:115-128 | from any consistent loop state, the loop ends with no move exactly when no cell is empty, and otherwise with an empty cell of greatest value, before which every empty cell has a strictly smaller value |
| `Search.BestFrom` | script.js:115-128 | the loop of `getBestMove` from cell i on, with the running best score and move; stated by `BestFromCorrect` |
| `Search.BestMove` | script.js:114-130 | `getBestMove` as a value on the board's cells; what it returns is stated by `BestMoveCorrect` |
| `Search.BestMoveCorrect` | script.js:114-130 | the best move is none exactly on a full board; otherwise it is an empty cell whose score for `O` is greatest, and every empty cell before it scores strictly less |
| `Search.BestMoveUnique` | script.js:123-126 | the strict comparison makes the promised move unique: two cells that both meet it are equal |
| `Search.ImmediateWinTaken` | script.js:118-129 | when the first empty cell completes an `O` line (and `X` has none), that cell is the move |
| `Search.TopRowCompleted` | script.js:114-130 | with `O` on cells 0 and 1 and the rest empty, the move is cell 2 |
| `Search.Minimax` | script.js:83-112 | returns the minimax value of the board it was given, independent of `depth`, and leaves the array exactly as it found it |
| `Search.PlayAndUndo` | script.js:92-96 | writing the mover's marker, searching one ply deeper and restoring `null` yields that cell's move value and leaves the array unchanged |
| `Search.GetBestMove` | script.js:114-130 | returns the best move of the board it was given and leaves the array exactly as it found it |
| `Control.Start` | script.js:246-258 | `initialize` as a value: the new session; its properties are stated by `StartIsOpen` |
| `Control.Other` | script.js:331 | the toggle of `switchPlayer`; stated by `GameController.SwitchPlayer` |
| `Control.Settle` | script.js:281-298 | the win, draw and switch sequence both move handlers run after a placement; stated by `ClickOutcome` and `SettleKeepsInvariant` |
| `Control.Click` | script.js:275-300 | `handleCellClick` as a step on sessions; stated by `ClickOutcome`, `ClickWinnerIsMover` and `ClickKeepsInvariant` |
| `Control.BotMove` | script.js:302-328 | `makeBotMove` as a step on sessions; stated by `BotMoveOutcome`, `BotMoveAlwaysPlaces`, `FinishedGameIgnoresMoves` and `BotMoveKeepsInvariant` |
| `Control.Restart` | script.js:336-341 | `restartGame` as a step on sessions: only the board changes; stated by `RestartKeepsInvariant` |
| `Control.StartIsOpen` | script.js:246-258 | a started game has nine empty cells, player one (`X`, human) to move, player two playing `O`, the game active, and moves available |
| `Control.ClickOutcome` | script.js:275-300 | a click does nothing when the game is over, when the bot is to move, or when the placement fails; otherwise the marker is written, the game ends exactly when the new board has a line or is full, and only otherwise does the turn pass |
| `Control.FinishedGameIgnoresMoves` | script.js:275-303 | once the game is over, clicks and bot moves change nothing |
| `Control.NewLineIsMovers` | script.js:278-287 | a marker placed on a board without a line can only complete a line of its own marker |
| `Control.ClickWinnerIsMover` | script.js:278-293 | on an open game, the line a click completes is the mover's, so the win is reported for the current player; a last free cell filled without a line ends the game as a draw |
| `Control.BotMoveAlwaysPlaces` | script.js:302-309 | on an active, open game the search always has a move, that cell is free, and the live board changes exactly there |
| `Control.BotMoveOutcome` | script.js:308-327 | on an active game the bot's move is placed, the game ends exactly when the new board has a line or is full, only otherwise does the turn pass, and the players stay the same |
| `Control.SettleOutcome` | script.js:281-298 | after a placement on an active game, the game ends exactly when the board has a line or is full, only otherwise does the turn pass, and the players and the new board are kept |
| `Control.SettleKeepsInvariant` | script.js:281-298 | the win, draw and switch logic keeps the game active only when the board has no line and a free cell |
| `Control.ClickKeepsInvariant` | script.js:275-300 | a click keeps the roster and the rule that an active game has no line and a free cell |
| `Control.BotMoveKeepsInvariant` | script.js:302-328 | a bot move keeps the roster and the rule that an active game has no line and a free cell |
| `Control.RestartKeepsInvariant` | script.js:336-341 | a restart keeps the invariant from any state |
| `Control.GameController.constructor` | script.js:246-258 | a new controller holds a fresh board and the state of a started game |
| `Control.GameController.Initialize` | script.js:246-258 | the state becomes that of a started game, on a fresh nine-empty-cell board |
| `Control.GameController.HandleCellClick` | script.js:275-300 | the new state is exactly the click step applied to the old state, on the same board object |
| `Control.GameController.MakeBotMove` | script.js:302-328 | the new state is exactly the bot step applied to the old state; the search's writes go to a copy, never to the live board |
| `Control.GameController.SwitchPlayer` | script.js:330-334 | the current player becomes the other of the two |
| `Control.GameController.RestartGame` | script.js:336-341 | only the board is reset to nine empty cells; the players, the current player and `gameActive` are unchanged |

## Left out

- `DisplayController` (script.js:138-238) and every call into it: DOM lookups, rendering, status strings, colours, `highlightWinningCells`, `showSetup`/`hideSetup`. They are presentation only.
- The names and game mode read from the page in `initialize` (script.js:247-248). They become the parameters `name1`, `name2` and `pve`.
- The re-registration of click and restart handlers in `initialize` (script.js:262-268) and the `DOMContentLoaded` wiring (script.js:350-352). These are event wiring.
- `initialize`'s `if (currentPlayer.isBot) makeBotMove()` (script.js:270-272). Player one is always created as a human, so this branch never runs.
- `setTimeout(makeBotMove, 500)` (script.js:296-298). This is timing, so the bot move is a separate step, `GameController.MakeBotMove`, that the environment calls. As in the source, nothing stops it from running when it is not the bot's turn, or after a restart.
- `-Infinity`/`Infinity` and `Math.max`/`Math.min` on floating point. They are the integer sentinels -11 and 11 (`NegInf`, `PosInf`). Every score lies in {-10, 0, 10}, so the results are the same.
- `Search.Minimax` keeps the loops of `minimax`. The body shared by the maximiser and minimiser loops (place, recurse, restore) is the method `PlayAndUndo`, which `GetBestMove` uses too.
- Full-game claims, such as "the bot never loses", "two bots playing from an empty board draw", or which cell the bot answers with after `X` takes the centre. Neither the code nor its comments make these claims. Settling them needs the whole game tree from a nearly empty board, far beyond what the verifier can evaluate. The model proves the local minimax properties instead.
- JavaScript's loose typing (a non-integer or `NaN` index, a marker that is neither `'X'` nor `'O'`). The index is an `int` and every marker is a `Cell`.
