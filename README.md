# Tic-tac-toe engine with a minimax opponent

This project models the game engine of a single-page tic-tac-toe game in Dafny. A human plays X against a computer that plays O. The computer picks its moves by exhaustive minimax search. The model covers four parts of the engine:

- **Rules** (`rules.dfy`, module `Rules`). A board is a sequence of exactly nine cells. A cell is `Empty` or `Marked(X)` / `Marked(O)`. The table `WinningLines` holds the eight index triples in the source's order: rows, then columns, then diagonals. `CheckWinner` scans that table with `ScanLines` and returns the mark of the first complete line. With no complete line it returns `Draw` when no cell is empty, and `Ongoing` otherwise. `Place` is the copy-and-write that every tried move uses.
- **Search** (`search.dfy`, module `Search`). `Minimax` and `Fold` are mutually recursive. `Fold` is the `forEach` over the cells. It tries each empty cell on a copy of the board and folds the child's score into a running best with `Max` (O, maximising) or `Min` (X, minimising). The source starts that running best at `-Infinity` / `Infinity`. The model covers this with the score type `Score = NegInf | Finite(int) | PosInf`, which is exact for every depth. A lemma proves that neither infinity is ever returned. Termination is by the number of empty cells. `ChooseMove` is the scoring loop of `makeAIMove`. It scans the cells in ascending order and keeps the first strict improvement.
- **Game state** (`game.dfy`, module `App`, class `Game`). The three pieces of component state (board, player to move, recorded result) are plain fields. The click handler, the computer's move and the reset are methods that change those fields. The board is an array: the click handler fills a fresh copy, and the computer's move writes into the current array in place and then installs a copy of it. The class invariant says the board has nine cells and a result is recorded exactly when `CheckWinner` reports the game over.

The source's `null` (empty cell, no result yet) becomes `Empty` and `Ongoing`. Its string outcomes `"X"`, `"O"` and `"Draw"` become `Won(X)`, `Won(O)` and `Draw`.

Where a design note for this engine and the code differ, the model follows the code:
- The description has a move operation that fails with an invalid-move error, and a best-move operation that fails on a full board. The code has neither. The click handler silently ignores a click on a filled cell or after the game has ended. `makeAIMove` silently does nothing on a full board. The model does the same.
- The description says the search works on copies throughout. In the code, `makeAIMove` writes its move into the board array it was given (`src/App.jsx:64`). That array is the one the click handler has just installed as the state. `Game.MakeAIMove` keeps that in-place write.

## Model

| member | source | states |
|---|---|---|
| Rules.ScanLinesFindsFirst | src/App.jsx:20-25 | If the scan from table entry k returns a mark, some later line is owned by that mark and no line between k and it is complete. If it returns nothing, no line from k on is complete. |
| Rules.CheckWinner | src/App.jsx:26 | A game reported as going on has an empty cell, so the search below always has a move to try. |
| Rules.CheckWinnerCorrect | src/App.jsx:19-27 | A win is reported exactly when some line is complete, and it names the owner of the first complete line in table order. `Draw` exactly when no line is complete and no cell is empty. `Ongoing` exactly when no line is complete and some cell is empty. So a full board with a line reports the winner. |
| Rules.EmptyCountFill | src/App.jsx:84-87 | Filling an empty cell lowers the empty-cell count by exactly one. This is the termination measure of the search. |
| Rules.Place | src/App.jsx:53-54 | A tried move is a copy with the mark at the tried index, equal to the input at the other eight indices, and with one empty cell fewer. |
| Rules.PlaceKeepsFinished | src/App.jsx:63-68 | Adding a mark to a board that already has a result keeps a winner reported, because complete lines stay complete. |
| Rules.FullBoardDraw | src/App.jsx:26 | Scenario: `[X,O,X,X,O,O,O,X,X]` evaluates to `Draw`. |
| Rules.FullBoardWithLine | src/App.jsx:20-26 | Scenario: a full board with X's top row evaluates to a win for X, not a draw. |
| Rules.Other | src/App.jsx:40 | The turn passes to the other player: the result is never the player who just moved. |
| Search.Max | src/App.jsx:88 | `Math.max` on scores with infinities: the result is one of the two arguments and is below neither. |
| Search.Min | src/App.jsx:99 | `Math.min` on scores with infinities: the result is one of the two arguments and is above neither. |
| Search.FoldIsBest | src/App.jsx:81-103 | The fold over the cells ends with a value at least (maximising) or at most (minimising) its start value and every empty cell's child score. That value is the start value or some empty cell's child score. |
| Search.MinimaxFinite | src/App.jsx:81-103 | Minimax never returns `-Infinity` or `Infinity`, at any depth: a board that is not finished has an empty cell, so the fold sees a real score. |
| Search.MinimaxPicksChild | src/App.jsx:81-103 | The score of an unfinished board equals the score of one of its moves. |
| Search.MinimaxIsBest | src/App.jsx:75-104 | A finished board scores `-10 + depth` for an X win, `10 - depth` for an O win, and `0` for a draw. Otherwise the score is the maximum (O to move) or the minimum (X to move) over all moves, and some move reaches it. |
| Search.MinimaxBounds | src/App.jsx:77-79 | With depth at least 0 and depth plus empty cells at most 20 (so for every board at depths 0 to 11), the score is a finite integer in [-10, 10]. |
| Search.ChooseMove | src/App.jsx:48-61 | It chooses nothing exactly when no cell is empty. Otherwise it chooses an empty cell whose score no empty cell beats, and every empty cell with a lower index scores strictly less, so ties go to the lowest index. |
| Search.BestMoveUnique | src/App.jsx:51-59 | The best move of a board is unique, so the choice depends only on the board. |
| Search.ImmediateWinScoresTen | src/App.jsx:78 | A move that wins at once scores 10, and no move scores more. |
| Search.MinimaxUpperBound | src/App.jsx:77-103 | With depth at least 0 and depth plus empty cells at most 10, the score is at most `10 - depth`, and at most `9 - depth` when the game is not over. |
| Search.TenMeansImmediateWin | src/App.jsx:51-59 | A move that scores 10 is a move that wins at once. |
| Search.ImmediateWinChosen | src/App.jsx:51-59 | If O can win at once at j, every best move also wins at once, scores 10, and lies at j or at a lower index: j is chosen unless a lower-indexed empty cell also wins at once. |
| Search.TakesTheWin | src/App.jsx:47-61 | Scenario: on `[O,O,_,X,X,_,_,_,_]` the best move is 2, the immediate win. |
| Search.BlockScore | src/App.jsx:75-104 | Scenario: on `[X,X,_,O,O,X,X,O,_]`, O at 2 scores 0 (the game is drawn). |
| Search.NoBlockScore | src/App.jsx:75-104 | Scenario: on the same board, O at 8 scores -9 (X completes the top row one ply later). |
| Search.BlocksTheRow | src/App.jsx:47-61 | Scenario: on that board the best move is 2, the block. |
| App.Game.constructor | src/App.jsx:15-17 | Initial state: an empty board, X to move, no result. |
| App.Game.Reset | src/App.jsx:106-110 | "Play Again" restores the initial state on a fresh board. |
| App.Game.HandleClick | src/App.jsx:29-45 | A click on a filled cell, or after a result is recorded, changes nothing. Otherwise the new board is the old one with the current player's mark at the clicked index and nowhere else, and the recorded result is its evaluation. The turn passes to the other player only while the game goes on. The computer's reply is scheduled exactly when X moved and the game goes on. |
| App.Game.MakeAIMove | src/App.jsx:47-73 | On a full board nothing changes. Otherwise O goes on the best move (`IsBestMove`: highest score, lowest index among ties), on exactly one cell that was empty, with the other eight unchanged. The write lands in the current board array, and then a copy of it becomes the board. A finished game records its result; otherwise X is to move. The class invariant is kept. |

## Left out

- The rendering (cells, highlighting of the winning line at `src/App.jsx:119`, the result banner and the "Play Again" button) is presentation. Only the state changes behind it are modelled.
- The 500 ms `setTimeout` before the computer's reply is left out. `HandleClick` returns whether the reply was scheduled, and the caller then invokes `MakeAIMove`. The source applies the reply to the board array captured at the click. The model applies it to the current board, which is that same array when nothing happens during the delay. A click that lands during the delay is not modelled: the source would still accept it (the turn is O's and no result is recorded), and the delayed reply would then overwrite it.
- `HandleClick` requires an index from 0 to 8, because the component only renders those nine cells.
- React's reactivity is not modelled: state updates made inside one handler are taken to apply in program order.
- Claims that need the full game tree are not proved: that the computer never loses from the empty board, the forced block on `[X,X,_,O,_,_,_,_,_]` (six empty cells), and the first move on an empty board. Each needs the verifier to evaluate thousands of positions. The blocking behaviour is shown instead on a board with two empty cells (`BlocksTheRow`).
- The claim that at most one mark can own a line in a position reached by legal play is not modelled. The model has no notion of reachable positions, and `CheckWinner` reports the first complete line in table order for every board.
- The design note's `winningLineFor` and its error-returning move operations do not exist in the code, and so are not part of this model.
