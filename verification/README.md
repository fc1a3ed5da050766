# Tic-tac-toe game logic: board classification, minimax and the computer's move

This project models the game logic of a browser tic-tac-toe game in which a
human plays O against a computer playing X. The model covers three parts of
`updated-script.js` and leaves the page plumbing aside:

- **Board model** (`board.dfy`, module `GameBoard`). A board is nine cells in
  row-major order. Each cell is `Empty` or `Marked(X)` or `Marked(O)`, matching
  the strings `""`, `"X"` and `"O"`. `WinPatterns` lists the eight winning
  triples in the source's order. `Evaluate` classifies a board: the mark of the
  first complete line in that order, else `Draw` when every cell is filled,
  else `InProgress` (the source's `null`). `Place` writes a mark into an empty
  cell.
- **Search engine** (`search.dfy`, module `Search`). `Minimax` scores a
  finished board with the fixed table X = +1, O = -1, draw = 0. On any other
  board it tries every empty cell in index order with the mover's mark, X when
  maximizing and O when minimizing. `Explore` is that loop. It starts from a
  seed outside the score range, which stands for the source's -Infinity or
  +Infinity, and keeps the running maximum or minimum. `MinimaxInPlace` is the
  same search on a mutable array. It writes each tried cell, searches, and
  writes the cell back to empty.
- **Computer move** (`selection.dfy`, module `Selection`). `ComputerMove` is
  the selection loop of `computerMove`. It tries X in each empty cell, scores
  the result with O to move, and keeps a cell only when its score is strictly
  greater than the best so far. With no empty cell it chooses nothing and
  leaves the board unchanged.

The main results:

- the score is always -1, 0 or +1, so a seed never escapes;
- the maximizer's score is the maximum over its children and the minimizer's
  the minimum;
- the in-place search restores the board;
- every recursive call has exactly one fewer empty cell;
- the chosen move is the unique lowest-index best cell, and on a board still
  in progress it attains the board's minimax value;
- a round of play never lowers X's value;
- swapping the marks and the side to move negates the score.

## Model

| member | source | states |
|---|---|---|
| `GameBoard.FirstWinner` | updated-script.js:132-139 | the scan over the patterns from position k yields Empty exactly when no line from k on is complete; otherwise it yields the owner of a complete line with no complete line before it |
| `GameBoard.Evaluate` | updated-script.js:131-143 | a win goes to the owner of the first complete line in pattern order, and there is a win exactly when some line is complete; Draw exactly when no line is complete and no cell is empty; InProgress exactly when no line is complete and some cell is empty |
| `GameBoard.EvaluateSoleOwner` | updated-script.js:132-139 | when every complete line belongs to one mark, the board is won by that mark whatever the pattern order |
| `GameBoard.Place` | updated-script.js:109-111 | placing a mark into an empty cell sets that cell, keeps all others, and lowers the empty-cell count by exactly one, so each recursive search call has one fewer empty cell |
| `GameBoard.FillOneCell` | updated-script.js:109-111 | filling one empty cell with a mark lowers the number of empty cells by one |
| `GameBoard.EvaluateSwapped` | updated-script.js:131-143 | exchanging X and O on a board exchanges the winner and keeps a draw or a game in progress |
| `Search.Score` | updated-script.js:16 | every entry of the terminal score table lies in -1..+1 |
| `Search.Minimax` | updated-script.js:102-129 | the score lies in -1..+1, so the ±Infinity seeds are never returned; a board won by X scores +1, won by O scores -1, and drawn scores 0, whoever is to move |
| `Search.Explore` | updated-script.js:106-128 | the search loop returns a score in -1..+1 once some cell from i on is empty, and returns its running best unchanged when none is |
| `Search.ChildValue` | updated-script.js:109-111 | the score of the board reached by the mover placing its mark (X when maximizing, O when minimizing) in an empty cell, with the other side to move, lies in -1..+1; the same child score is what `computerMove` computes for X at lines 83-84 |
| `Search.ExploreAttains` | updated-script.js:106-128 | the loop's result is its starting best or the score of one of the children it tried |
| `Search.ExploreBounds` | updated-script.js:106-128 | the maximizing loop ends at least as high as its starting best and every child it tried; the minimizing loop ends at least as low |
| `Search.MinimaxChoosesExtremum` | updated-script.js:102-129 | on a board in progress, the maximizer's score equals the largest child score with X placed and O to move, and the minimizer's score equals the smallest child score with O placed and X to move |
| `Search.MinimaxSwapped` | updated-script.js:102-129 | exchanging X and O on the board and switching the side to move negates the score |
| `Search.MinimaxInPlace` | updated-script.js:102-129 | after the try, recurse, undo search on a mutable board, the board equals the board it was given, and the score equals the pure search's score |
| `Selection.ComputerMove` | updated-script.js:77-96 | a move is chosen exactly when some cell is empty; the chosen cell is empty, scores at least as high as every empty cell, and scores strictly higher than every earlier empty cell; the new board has X there; with no empty cell the board is unchanged |
| `Selection.ChosenMoveUnique` | updated-script.js:86-89 | the strict comparison leaves at most one cell satisfying the choice conditions |
| `Selection.ChosenMoveAttainsValue` | updated-script.js:81-91 | on a board in progress, the chosen cell's score equals the minimax value of the board with X to move |
| `Selection.RoundKeepsValue` | updated-script.js:81-91 | after X plays the chosen cell and O answers in any empty cell, X's value is no lower than before the round; from a board X does not lose, that answer cannot win for O |
| `Selection.ChoosesImmediateWin` | updated-script.js:81-91 | on the board X O X / O X O / _ _ _, the chosen cell is 6 and it scores +1 |
| `Selection.DiagonalWin` | updated-script.js:131-139 | the board X O X / O X O / X _ _ evaluates to a win for X |

## Left out

- DOM queries, click handlers, `innerText` and `disabled` updates, the message banner, `showWinner`, `disableBoxes`, `enableBoxes` and `resetGame` are left out. They are presentation only.
- `checkWinner` is left out. It repeats `evaluate` and only has display effects.
- The `setTimeout` delay and the `turnO` flag are left out. The model threads the side to move explicitly. It follows the code in not checking for a finished game before `computerMove`'s loop: `ComputerMove` has no precondition on the outcome.
- JavaScript's `-Infinity` and `Infinity` are not modelled as numbers. They become the integer seeds -2 and +2, and `Minimax` is proved never to return them.
- `Place` requires an empty cell. The search writes only into cells it has just tested empty (lines 109-110 and 120-121), and so does `computerMove` (lines 82-83). The click handler at lines 21-24 tests the box text rather than the board cell, and the box text is kept in step with the board.
- On a full board `computerMove` leaves `move` undefined and changes nothing (lines 81-93). `ComputerMove` returns `NoMove` and the board unchanged in that case.
- Move selection for O is not modelled. The code selects moves only for X.
- The move from the empty board is not proved. Under best play every opening leads to a draw, so every empty cell scores 0, and the strict comparison at line 86 would keep cell 0. Proving this needs the whole game tree of up to 9! positions, which is more than the verifier can unfold. `RoundKeepsValue` proves one round of the "O never wins from a position X does not lose" argument instead.
