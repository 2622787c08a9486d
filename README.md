# Tic-tac-toe engine with a computer opponent

A model of the game engine in `script.js`: a human plays X against a computer
playing O at one of three difficulties. The model covers the 9-cell board and
its win detection, the list of free cells, the full-depth minimax search with
depth-biased scores, the three move rules (random, "blocking", best), and the
turn state machine: click handling, the computer's turn, ending the game,
resetting it and choosing the difficulty. Rendering is not part of the model.

Three modules, one per component:

- `TicTacToe` (board.dfy) holds the cells, the 8 winning triples and `CheckWinner`.
  It also holds `AvailableMoves`, `IsFull`, `IsTerminal` and the free-cell count.
  These are pure functions over a `Board` value, which is a sequence of 9 cells.
- `Minimax` (minimax.dfy) holds what the search computes, as functions on board values.
  `Score` is minimax, and `Sweep` is its loop over the cells. `Choose`/`BestMove`
  is the loop of makeBestMove. `ImmediateWinExists` is the test made by
  makeBlockingMove, and `RandomPick` is the random move with an injected draw.
  The -Infinity/+Infinity seeds are the `NegInf`/`PosInf` values of `Ext`.
- `Game` (game.dfy) holds the class `Game`. Its fields are the four globals:
  `board` is an `array<Cell>` of length 9, and the others are `currentPlayer`,
  `gameActive` and `difficulty`. Its methods update them in place as the source
  does. `Minimax`, `MakeBestMove` and `MakeBlockingMove` place a mark on the
  shared array, recurse or test, and clear the cell again. `Minimax` and
  `MakeBlockingMove` are proved to end with the board exactly as they found it.
  The scan loop of `MakeBestMove` restores the board after each trial. The
  method then plays O on the chosen cell. Each method is proved to compute the
  value of the matching function in module `Minimax`.

The source's `setTimeout` before the computer's move becomes the `scheduled`
result of `HandleClick`. A driver then calls `ComputerMove` as a separate step.
`Math.random` becomes a caller-supplied natural number `choice`. The move
picked is `availableMoves[choice % n]`. As `choice` ranges over all naturals,
this reaches every index that `Math.floor(Math.random() * n)` can produce.

Where the code and the design description differ, the model follows the code:

- On medium, makeBlockingMove finds a cell where O would complete a triple.
  It then clears that cell and returns true without playing it. So on medium,
  whenever O can win at once, the computer makes no move that turn. The turn
  still returns to X (`MediumSkipsWinningTurn`, `ComputerPlacesAtMostOneO`).
- A click on a taken cell or after the end of the game is ignored silently.
  It raises no error.
- The computer's turn on a full board is not an error. No cell changes.
- The minimax bound is proved as `depth - 10 <= score <= 10 - depth` when
  `0 <= depth` and `depth + free cells <= 10`. Every call in the source meets
  that condition: makeBestMove places O before it calls minimax, so the search
  starts at depth 0 with at most 8 free cells.
  For larger depths, `10 - depth` itself falls below -10.

## Model

| member | source | states |
|---|---|---|
| `TicTacToe.Line` | script.js:143-147 | the k-th of the 8 winning patterns, in the source's order; every index lies on the board |
| `TicTacToe.WinnerFrom` | script.js:149-155 | scanning the triples from the k-th on returns None iff none of them is complete; otherwise it returns a mark that fills a triple, and no earlier triple is complete |
| `TicTacToe.CheckWinner` | script.js:142-156 | null exactly when none of the 8 triples is non-empty and uniform; a returned mark is never the empty cell |
| `TicTacToe.WinnerIsFirstCompleteLine` | script.js:143-155 | checkWinner returns m iff m fills the first complete triple in the listed order (both directions) |
| `TicTacToe.Other` | script.js:38 | the player who moves next is never the one who just moved |
| `TicTacToe.IsFull` | script.js:35 | `board.every(cell => cell !== '')`. It has no contract of its own. `EmptyCountBounds` relates it to the free-cell count, and `AvailableMovesCount` relates it to the list of available moves |
| `TicTacToe.IsTerminal` | script.js:33-36 | a winner exists or the board is full: the condition under which handleClick and computerMove call endGame. It has no contract of its own; the contracts of `HandleClick` and `ComputerMove` use it |
| `TicTacToe.EmptyCountBounds` | script.js:115 | at most 9 cells are free, and none is free iff `board.every(cell => cell !== '')` |
| `TicTacToe.PlaceFillsOne` | script.js:119-123 | placing a mark on a free cell lowers the free-cell count by one: the measure under which minimax terminates |
| `TicTacToe.MovesFrom` | script.js:50 | the free indices from i on: each listed index is free and in range, each free index is listed, and the list is strictly ascending |
| `TicTacToe.AvailableMoves` | script.js:50 | availableMoves lists exactly the free indices, each once, in strictly ascending order |
| `TicTacToe.AvailableMovesCount` | script.js:50 | the list has one entry per free cell, so it is empty iff the board is full |
| `Minimax.Score` | script.js:111-140 | minimax: 10 - depth for an O win, depth - 10 for an X win, 0 for a full board, otherwise the best child score for the side to move. It has no contract of its own. Its finiteness comes from `Sweep`, and its bounds from `ScoreBounds` |
| `Minimax.Sweep` | script.js:117-138 | the loop never returns the opposite seed; once any free cell has been scanned its result is a finite score, so minimax never returns ±Infinity |
| `Minimax.SweepBounds` | script.js:117-138 | the loop's best score stays within depth-9 .. 9-depth, or is still the seed when no free cell remains |
| `Minimax.ScoreBounds` | script.js:111-139 | minimax scores lie in depth-10 .. 10-depth (-10 .. 10 from depth 0); 10-depth only for an O win already on the board, depth-10 only for an X win |
| `Minimax.Choose` | script.js:94-104 | the loop's chosen move is always an in-range free cell |
| `Minimax.BestMove` | script.js:90-108 | the cell makeBestMove plays is in range and free |
| `Minimax.ScannedStep` | script.js:95-103 | one iteration with strict `>` keeps the invariant: the best move has the maximal score so far and beats every earlier free cell strictly |
| `Minimax.ChooseKeepsScanned` | script.js:94-104 | the whole loop ends with the best move of maximal score, strictly above all lower indices |
| `Minimax.BestMoveIsLowestMaximum` | script.js:90-108 | makeBestMove plays iff a cell is free; it plays the free cell of maximal score, the lowest index among ties |
| `Minimax.HardTakesFirstImmediateWin` | script.js:90-109 | when O can complete a triple at once, hard plays the lowest such cell |
| `Minimax.HardCompletesTopRow` | script.js:90-109 | with O on 0 and 1 and X on 3 and 4, hard plays cell 2 |
| `Minimax.ImmediateWinExists` | script.js:77-87 | the test in makeBlockingMove: some free cell, filled with O, makes checkWinner non-null. When it holds, the board is not full |
| `Minimax.OnlyOCanWinByPlacingO` | script.js:76-88 | on a board nobody has won, the winner produced by an O placement is O: the medium test looks for O's own win, not X's threat |
| `Minimax.RandomPick` | script.js:71-74 | makeRandomMove with the draw injected: the only cells it changes are free cells, and they become O |
| `Minimax.RandomPickPlacesOne` | script.js:71-74 | the random move puts O on one free cell whenever one is free, and changes nothing on a full board |
| `Game.ComputerBoard` | script.js:52-60 | the board after the computer's move for each difficulty: the only cells it changes are free cells, and they become O |
| `Game.ComputerPlacesAtMostOneO` | script.js:52-60 | the computer's turn changes at most one free cell, to O. It always plays when a cell is free, except on medium when an immediate O win exists; then the board is unchanged |
| `Game.MediumSkipsWinningTurn` | script.js:54-57 | on medium, with O on 0 and 1 and X on 3 and 4, the computer leaves the board unchanged |
| `Game.Game.constructor` | script.js:12-15 | a new game has an empty, non-terminal board, X to move, play active and easy difficulty |
| `Game.Game.Minimax` | script.js:111-140 | the in-place search leaves the board exactly as it found it and returns the score of the board it was given |
| `Game.Game.MakeBestMove` | script.js:90-109 | the board afterwards is the old board with O on the chosen best cell, or is unchanged when no cell is free |
| `Game.Game.MakeBlockingMove` | script.js:76-88 | the board is never changed; the result is true iff some free cell, filled with O, makes checkWinner non-null |
| `Game.Game.MakeRandomMove` | script.js:71-74 | the only change is O on the chosen available move |
| `Game.Game.EndGame` | script.js:158-159 | play stops; nothing else changes |
| `Game.Game.HandleClick` | script.js:29-45 | a click on a taken cell or after the end changes nothing. Otherwise the cell gets the current player's mark, and the game ends iff that wins or fills the board. The player toggles only if play continues, and the computer's move is scheduled iff O is next |
| `Game.Game.ComputerMove` | script.js:47-69 | after the end nothing changes. Otherwise the board is the computer's move for the difficulty, X moves next, and play goes on iff nobody has won and a cell is free |
| `Game.Game.ResetGame` | script.js:165-168 | a fresh board of 9 empty cells, X to move, play active |
| `Game.Game.ChooseDifficulty` | script.js:173-179 | the chosen difficulty is recorded and a fresh game starts |

## Left out

- Rendering is not modelled: element lookups, `createBoard`, status and result texts, and screen switching. These are presentation only.
- The 500 ms `setTimeout` before the computer's move is not modelled. `ComputerMove` is an atomic step that the driver invokes. A click during the delay is covered by `HandleClick`: it places O and passes the turn to X. The pending `computerMove` that fires after such a click is not modelled.
- `Math.random` and its floating point are not modelled. The draw is the caller's `choice`, and the cell picked is `availableMoves[choice % n]`.
- The ±Infinity seeds are the values `NegInf`/`PosInf`, not floating point.
- The string-valued `dataset.index` is not modelled. `HandleClick` takes a cell number below 9, which is all `createBoard` ever attaches.
- The same holds for a difficulty string other than the three buttons' values.
- On easy with no free cell, the source writes `board[undefined]`, a property that is not a cell. The model leaves the cells unchanged and does not model that extra property.
- That hard never loses is not proved. The code makes no such claim, and proving it needs an exhaustive evaluation of the game tree.
