# Tic-tac-toe decision engine

A Dafny model of the game engine in `main.py` of a small pygame
tic-tac-toe ("Kółko i Krzyżyk"). The human plays X and the built-in
player (`Ai`) plays O. The model covers four parts:

- the board: nine cells, each empty (Python `None`), `"X"` or `"O"`, with
  cell index `x + y*3`. It lives in module `Rules`, in `rules.dfy`;
- the line test `check_win`: the source's scan over x, then over y, then
  the two diagonals. It is proved equal to a table of the eight winning
  lines;
- the exhaustive scorer `Ai.score_moves`. It yields one `(score, move)`
  pair per empty cell, in ascending order. A move that completes a line
  for the mover scores -1 if X moved and +1 if O moved. A move that fills
  the board scores 0. Any other move scores the *sum* of the scores of all
  the replies. It is modelled in module `Engine` (`engine.dfy`) as three
  mutually recursive functions. The recursion ends because each
  hypothetical move leaves one empty cell fewer;
- `Ai.next_move`, the first pair with the largest score (what Python's
  `max` with a key returns), and `Ai.make_turn`. `make_turn` writes `"O"`
  into that cell of the live board, an `array<Cell>` of nine cells.

Beyond the source's own cases, the model proves three more properties:

- a symmetry: swapping every X and O, and swapping the side to move,
  negates every score;
- a bound: with n empty cells, a score lies between -(n-1)! and (n-1)!;
- the chosen move is an empty cell that scores at least as much as every
  other empty cell, and no lower-numbered empty cell scores as much.

Behaviour of the code worth knowing:

- The sign of a win depends on the mover: -1 if X moved, +1 if O moved
  (main.py:168). The engine always plays O (main.py:141, 147), so its own
  wins count +1 and the human's count -1. There is no engine that plays X;
  the symmetry lemma `ScoreOfMirror` states what such an engine would
  score.
- Scores are sums over all continuations (main.py:179-181), not a minimax,
  so `next_move` need not take an immediate win. On
  `[_, X, _, X, X, O, _, O, O]` (cells 0-8) with O to move, O completes a
  line at 2 or at 6, each scoring +1. Cell 0 scores +2, because both of X's
  replies lose, so `next_move` returns 0 (`NextMoveCanPassWin`). By the same
  rule, on `[O, O, _, X, X, _, _, _, _]` the win at 2 scores +1 and the
  block at 5 scores +5, so `next_move` returns 5. That board has five empty
  cells and is not proved here.
- `check_win` returns `None` rather than `False` when no line is found. It
  is modelled as a `bool`.
- The source's scan names the triple `[marker(x,0), marker(x,1),
  marker(x,2)]` `row` and the other one `col` (main.py:200, 206). With cell
  index `x + y*3` the first is the line of fixed x. The model keeps the
  source's names (`Row`, `Col`, `ScanRows`, `ScanCols`).

## Model

| member | source | states |
|---|---|---|
| `Rules.PlayerMarker` | main.py:184-186 | the marker is never empty; it is X exactly for the X player |
| `Rules.Marker` | main.py:195-196 | the inner helper `marker(xx, yy)`: the cell at index xx + yy*3 (a definition; its use is stated by `CheckWinIsLine`) |
| `Rules.CheckWin` | main.py:189-214 | the source's scan as written: the `row` scan, then the `col` scan, then the two diagonals, each compared with three copies of the player's marker (a definition; `CheckWinIsLine` states what it means) |
| `Rules.CheckWinIsLine` | main.py:189-214 | `check_win(markers, p)` holds exactly when one of the eight lines {x, x+3, x+6}, {3y, 3y+1, 3y+2}, {0,4,8}, {6,4,2} holds p's marker in all three cells |
| `Rules.ScanRows` | main.py:199-202 | the scan over x succeeds exactly when some triple at x or later equals the winning triple |
| `Rules.ScanCols` | main.py:205-208 | the scan over y succeeds exactly when some triple at y or later equals the winning triple |
| `Rules.NoLineNoWin` | main.py:189-214 | when no line of the table holds the player's marker, `check_win` is false for that player |
| `Rules.LineOnlyWins` | main.py:189-214 | a board holding only one full line of a player's marker is a win for that player and not for the other |
| `Rules.EmptyCellsFrom` | main.py:158 | the moves of the `enumerate` filter from index i onwards: at most 9 - i of them |
| `Rules.EmptyCells` | main.py:158 | the generator's available moves, the filter from index 0 (a definition; `EmptyCellsSpec` states its properties) |
| `Rules.EmptyCellAt` | main.py:158 | every listed move from i onwards is at least i and holds `None` |
| `Rules.EmptyCellsOrdered` | main.py:158 | the listed moves strictly ascend, as `enumerate` visits them |
| `Rules.EmptyCellListed` | main.py:158 | every empty cell from i onwards is listed |
| `Rules.EmptyCellsSpec` | main.py:158 | the generator's available moves: every index holds an empty cell, indices strictly ascend, every empty cell appears |
| `Rules.IsFull` | main.py:136 | `None not in markers` (a definition; `FullIffNoEmptyCells` ties it to the moves) |
| `Rules.FullIffNoEmptyCells` | main.py:136 | the board has no `None` exactly when there are no available moves |
| `Rules.Place` | main.py:162-163 | the copy of the board with the mover's marker written at the move, leaving the original untouched (a definition; `PlaceShrinks` states its properties) |
| `Rules.PlaceCount` | main.py:162-163 | filling an empty cell leaves one available move fewer |
| `Rules.PlaceShrinks` | main.py:162-163 | placing a marker on an empty cell of a copy removes exactly that index from the available moves, so the recursion at main.py:173 terminates |
| `Rules.MirrorCheckWin` | main.py:189-214 | swapping X and O swaps which player has a line |
| `Engine.ScoreMoves` | main.py:155-159 | exactly one pair per empty cell, and the k-th pair's move is the k-th empty cell |
| `Engine.ScoreFrom` | main.py:158-181 | the pairs yielded for the empty cells from index i onwards: one per such cell, the k-th carrying the k-th of those cells |
| `Engine.ScoreFromAt` | main.py:158-181 | every pair from index i onwards holds an empty cell and carries that cell's score |
| `Engine.ScoreMovesAt` | main.py:155-181 | the k-th yielded pair holds an empty cell and carries that cell's score |
| `Engine.ScoreMovesPairs` | main.py:155-181 | every yielded move is an empty cell and carries that cell's score; the moves strictly ascend; every empty cell is yielded |
| `Engine.ScoreOf` | main.py:160-181 | the score of one move: copy, place, then the win, full-board and sum cases (a definition; `ScoreOfCases`, `ScoreOfBound` and `ScoreOfMirror` state its properties) |
| `Engine.SumScores` | main.py:179-181 | `sum(scores)` over the replies' pairs (a definition; `SumScoresBound` and `SumScoresNegated` state its properties) |
| `Engine.ScoreOfCases` | main.py:162-181 | the hypothesis board differs from the input only at the move; a win scores -1 for X and +1 for O; a non-winning move that fills the board scores 0; otherwise the score is the sum of the replies' scores, and there is one reply per remaining empty cell |
| `Engine.FirstMax` | main.py:149 | a position whose score is at least every score, and before which every score is strictly smaller (Python's `max` keeps the first maximum) |
| `Engine.NextMove` | main.py:144-152 | needs an empty cell; returns an empty cell whose score for O is at least every empty cell's score, and every lower-indexed empty cell scores strictly less |
| `Engine.XMoveThenOWins` | main.py:162-181 | with two empty cells left, X's move that wins nothing followed by O's winning reply scores +1 |
| `Engine.OMoveTwoReplies` | main.py:162-181 | O's non-winning move that leaves two empty cells scores the sum of X's two replies |
| `Engine.NextMoveCanPassWin` | main.py:144-181 | on `[_, X, _, X, X, O, _, O, O]` O can win at 2 or 6, yet `next_move` returns 0 |
| `Engine.NextMoveAtLeastWin` | main.py:147-149 | when O can win at once, the chosen move scores at least +1 |
| `Engine.ScoreOfBound` | main.py:166-181 | with n empty cells a move's score lies within ±(n-1)! |
| `Engine.SumScoresBound` | main.py:179-181 | a sum of n scores, each within ±bound, lies within ±n·bound |
| `Engine.SumScoresNegated` | main.py:179-181 | negating every score negates the sum |
| `Engine.ScoreOfMirror` | main.py:166-181 | swapping X and O and the side to move negates a move's score |
| `Engine.ScoreMovesMirror` | main.py:155-181 | on the swapped board the generator yields the same moves with negated scores |
| `Engine.EmptyBoardScoresOpposite` | main.py:166-168 | on the empty board each first move scores for X the negation of its score for O |
| `Engine.Board.constructor` | main.py:20 | a new board has nine empty cells |
| `Engine.Ai.constructor` | main.py:131-132 | the engine keeps the board it was given |
| `Engine.Ai.MakeTurn` | main.py:134-141 | a full board is left unchanged; otherwise the cell that `next_move` picks was empty, now holds O, and no other cell changes |

## Left out

- Rendering and window setup (`Board.__init__` apart from the nine empty
  cells, `draw`, `draw_net`, `draw_markers`, `draw_text`, `draw_score`):
  these are pygame drawing calls. `draw_score` tests `check_win(..., True)`
  twice (main.py:76 and 78), so its "you lost" branch can never be taken.
  That is a display defect outside the engine and is not modelled.
- The event loop and frame pacing (`TicTacToeGame.run`, `handle_events`):
  these are pygame I/O.
- `Board.player_move`: it maps mouse pixels to a cell with float division
  and checks neither range nor emptiness. It is I/O glue.
- Logging in `make_turn` and `next_move`: it is observability only.
- Concrete evaluations of the search on nearly empty boards: the full
  search tree is far too large to unfold in proofs. Properties are stated
  for all boards instead, so no lemma says which cell the engine picks on
  a particular board.
- Whether two copies of the engine always draw against each other is not
  stated: it needs the whole search tree evaluated.
- Engine.NextMove and Engine.FirstMax: they require a board with an empty
  cell. On a full board the source's `max` over an empty generator raises
  `ValueError` (main.py:149); that error path is not modelled. The only
  caller, `make_turn`, returns before calling `next_move` on a full board
  (main.py:136).
- Laziness of the generator: the model computes the whole sequence of
  pairs. Nothing in the source consumes the generator partially, so no
  visible behaviour changes.
- Python's integer width: scores are unbounded integers here, as in
  Python.
- `make_turn` and `next_move` do not check whether X has already won; the
  model keeps that behaviour (only a full board stops the move).
