# Unbeatable tic-tac-toe: rules, minimax move chooser and game state

A Dafny model of the core of a React tic-tac-toe game in which a human plays
against a perfect-play computer opponent. It has four modules:

- `Rules` (rules.dfy) covers the board, the eight winning lines and the outcome
  evaluator. `calculateWinner` returns the symbol of the first complete line
  (rows, then columns, then diagonals). `isFull` says whether every square is
  filled. Both are loop methods, each proved against a specification function.
  The board is a sequence of exactly nine `Cell`s, and JavaScript `null` is
  `Empty`.
- `Search` (search.dfy) covers `findBestSquare` and its inner `minimax`.
  `Minimax` and `Scan` are the specification functions. Terminal positions
  score +1, -1 or 0. Other positions fold over the empty squares in ascending
  order and keep a running best `{square, score}` that is replaced only by a
  strictly better child. `MinimaxSearch` is the search itself. It places each
  trial symbol on the squares array in place, recurses, and resets the square
  to empty. It is proved to return the specified choice and to leave the array
  as it found it. Two examples are proved about the result without running the
  tree: an immediate win, and a forced block. `SearchExamples` holds them.
- `GameComponent` (game.dfy) covers the `Game` component's state: `history`,
  `stepNumber` and `xIsNext`. It gives `makeMove`, `jumpTo` and the click
  handler as transitions on a state value, and as methods of a class with the
  same three fields.
- `IndexBoard` (index_board.dfy) covers the earlier `Board` component. It has
  nine squares and a turn flag, and the same placement rule with no history.

The search appears twice in the source, in `src/components/Game.js` and
`src/components/AI.js`. The two copies are identical, so one implementation
models both. The same holds for the two copies of `calculateWinner`, in
`src/components/Game.js` and `src/index.js`.

The search starts from the floating sentinels `-Infinity` and `+Infinity`. The
model uses -2 and +2 instead. `Minimax` proves that every real score lies in
[-1, 1], so every comparison comes out the same as in the source.

## Model

| member | source | states |
|---|---|---|
| Rules.Opponent | src/components/AI.js:7 | The opponent is the symbol other than `player` (`'O'` for `'X'`, `'X'` for `'O'`). |
| Rules.OtherIsOpponent | src/components/Game.js:145 | There are only two symbols: any symbol other than the player is the opponent. So a winner is always either `player` or `opponent`. |
| Rules.Mark | src/components/Game.js:28 | The mover's symbol is `X` exactly when `xIsNext` holds. |
| Rules.WinnerFrom | src/components/Game.js:132-138 | The scan from line `k` on returns None iff no line from `k` on is complete. Otherwise it returns the symbol on the first complete line at or after `k`, and every line before that one is incomplete. |
| Rules.Winner | src/components/Game.js:121-139 | `calculateWinner` returns None iff none of the 8 lines has three equal non-empty cells. Otherwise it returns the symbol of the first such line in the order rows, columns, diagonals. |
| Rules.CalculateWinner | src/index.js:120-138 | The line-scanning loop, which returns at the first complete line, computes exactly `Winner`. |
| Rules.IsFull | src/components/Game.js:112-119 | The loop returns true iff no cell is empty. |
| Rules.CountUpdate | src/components/Game.js:28 | Overwriting one cell changes the count of each value by exactly the cell's old and new value. |
| Rules.Place | src/components/AI.js:25-30 | A trial placement on an empty cell sets that cell to the symbol and changes no other cell. It leaves exactly one empty cell fewer, which is the measure by which the search terminates. |
| Rules.LoneLineWins | src/components/Game.js:122-131 | For each of the 8 lines, a board with only that line filled by one symbol reports that symbol as winner. |
| Rules.WinnerFromSkips | src/components/Game.js:132-137 | The scan steps past lines that are known to be incomplete. |
| Search.Mover | src/components/Game.js:166 | The player's symbol is placed on maximizing plies and the opponent's on minimizing plies. |
| Search.Minimax | src/components/Game.js:147-189 | Every node's score lies in [-1, 1]. The square is -1 exactly when the position is already won or full. Otherwise it is an empty cell in [0, 8]. |
| Search.ChildScore | src/components/Game.js:166-168 | The score of the child reached by playing the mover's symbol on an empty cell lies in [-1, 1]. |
| Search.Scan | src/components/Game.js:160-185 | The loop's running best is always the sentinel or an empty cell with a score in [-1, 1]. It is still the sentinel only if no empty cell was seen. |
| Search.ScanStep | src/components/AI.js:34-46 | One empty cell scanned with the strict comparisons keeps the meaning of the running best. That meaning is: a child score no worse than any seen, and strictly better than every earlier empty cell. |
| Search.ScanKeepsInv | src/components/AI.js:23-47 | The loop over all squares ends with a running best that has that meaning over all nine cells. |
| Search.MinimaxOptimal | src/components/Game.js:172-184 | At a non-terminal node the chosen square is empty and its score is its child's score. That score is the maximum over all empty cells on maximizing plies and the minimum on minimizing plies. Every empty cell of lower index scores strictly worse, so ties go to the lowest index. |
| Search.BestSquare | src/components/Game.js:191 | `findBestSquare` answers -1 iff the board is won or full. Otherwise it answers the lowest-index empty cell whose child score is the maximum. |
| Search.MinimaxSearch | src/components/AI.js:9-51 | The in-place search returns exactly `Minimax`'s square and score. The squares array is identical afterwards, because every trial placement is reset. |
| Search.FindBestSquare | src/components/Game.js:142-192 | The result is `BestSquare` of the input board, and the input array is unchanged. |
| SearchExamples.ImmediateWin | src/components/Game.js:151 | On `[X,X,_,O,O,_,_,_,_]` with X to move, the chosen square is 2, which completes row 0. |
| SearchExamples.ForcedBlock | src/components/Game.js:172-184 | On `[O,O,_,X,_,_,_,_,_]` with X to move, the chosen square is 2, which blocks O. |
| SearchExamples.BlockBoardOpen | src/components/Game.js:148-156 | The forced-block board has no winner and is not full, so the search explores it. |
| SearchExamples.OtherMoveLoses | src/components/Game.js:178-183 | On that board, every other X move scores -1, because O's minimizing ply can complete row 0. |
| SearchExamples.NoLineAfterOtherMove | src/components/Game.js:148 | On that board, X's other moves complete no line. |
| GameComponent.Move | src/components/Game.js:19-41 | After `makeMove` the shown step is still an entry of the history. |
| GameComponent.Jump | src/components/Game.js:55-60 | `jumpTo` keeps the history, and the step it shows is an entry of it. |
| GameComponent.Click | src/components/Game.js:43-52 | After the click and the computer's reply, the shown step is an entry of the history. |
| GameComponent.ClickFixed | src/components/Game.js:43-52 | The corrected click handler also keeps the shown step inside the history. |
| GameComponent.MoveRefusedIff | src/components/Game.js:24-27 | `makeMove(i)` leaves the state unchanged iff the shown board has a winner or square `i` is filled. |
| GameComponent.MoveAppendsOneBoard | src/components/Game.js:20-35 | An accepted move keeps the boards up to the shown step and appends exactly one board, which becomes the new step. The turn flips. The new board equals the shown one except that square `i` holds the mover's symbol. |
| GameComponent.MoveKeepsValid | src/components/Game.js:28-34 | `makeMove` preserves the invariants: board `k` holds ceil(k/2) X's, floor(k/2) O's and 9-k empty cells, and X is to move exactly on even steps. |
| GameComponent.JumpKeepsValid | src/components/Game.js:55-60 | `jumpTo(step)` preserves the same invariants, since it sets `xIsNext` to `step % 2 == 0`. |
| GameComponent.InitialValid | src/components/Game.js:9-15 | The initial state satisfies those invariants. |
| GameComponent.ClickOnTakenSquareMovesForClicker | src/components/Game.js:43-52 | As written, clicking a square that holds the computer's symbol in a game still in progress is refused. The computer then places the clicker's symbol on an empty square, and the turn passes. |
| GameComponent.ClickFixedPlaysClickersSymbol | src/components/Game.js:43-52 | Corrected, a click either changes nothing or puts the clicker's symbol on the clicked square. The turn moves to the other symbol only when the game has ended. |
| GameComponent.Game.constructor | src/components/Game.js:7-16 | The history holds one empty board, `stepNumber` is 0 and `xIsNext` is true. |
| GameComponent.Game.MakeMove | src/components/Game.js:19-41 | The new fields are `Move` of the old ones. |
| GameComponent.Game.JumpTo | src/components/Game.js:55-60 | The new fields are `Jump` of the old ones. |
| GameComponent.Game.HandleClick | src/components/Game.js:43-52 | Runs `makeMove(i)`, then `findBestSquare` on a copy of the shown board for the side to move, then `makeMove` of the answer unless it is -1. The new fields are `Click` of the old ones. |
| IndexBoard.Board.constructor | src/index.js:41-47 | Nine empty squares, with X to move. |
| IndexBoard.Board.HandleClick | src/index.js:56-68 | If the board has a winner or square `i` is filled, nothing changes. Otherwise only square `i` changes, to `X` if `xIsNext` else `O`, and `xIsNext` flips. The move-count balance between X and O is preserved. |

## Left out

- Rendering is left out: every `render` method, `Board.js`, `Square.js`, the placeholder `Game` of `src/index.js` and `ReactDOM.render`. These are UI only.
- `makeMove` returns a Promise, and `handleClick` awaits it. The model runs the two moves one after the other, which is the order the awaits enforce.
- `findBestSquare` is modelled on an `array` that it restores. The boards that `makeMove` and `Board.handleClick` copy with `slice` are immutable sequence values, so the board a copy was taken from can never be changed.
- The concrete square chosen on the empty board is not proved, and neither is the claim that self-play from the empty board always draws. Both would need the verifier to evaluate the whole game tree. The model proves the local properties instead: terminal scores, max/min folding, the tie-break and the two worked examples.
- `src/components/AI.js` uses `calculateWinner` and `isFull` without importing them, and imports `Game` without using it. The model uses the helpers of `src/components/Game.js`, not the `ReferenceError` the AI.js copy would raise.
- The player argument of `findBestSquare` is a `Player`, so a symbol other than `'X'` or `'O'` cannot be passed. A board always has nine cells, by its type.
- GameComponent.Game.JumpTo: requires the step to be an index of the history. The source's only caller passes the index of a history entry.

## Findings

| source | as written | input that shows it | evidently intended | confidence | as-written member | corrected member |
|---|---|---|---|---|---|---|
| src/components/Game.js:43-52 | `handleClick` asks for and plays the computer's move even when `makeMove(i)` refused the click. | History `[empty, X on 0, X on 0 and O on 4]` at step 2, with X to move. The human clicks square 4, which holds O. The click is refused, and the computer then plays an X for the human. After that the human is to move as O. | The computer replies only to an accepted click, so each side keeps its symbol. | medium, not executed | GameComponent.ClickOnTakenSquareMovesForClicker | GameComponent.ClickFixedPlaysClickersSymbol |
