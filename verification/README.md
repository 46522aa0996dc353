# Chess opponent and Lost Pixel, modelled in Dafny

This project models the core logic of two browser games.

**scripts/chess.js: the computer opponent.**
- `evaluateBoard` is a static material count over the 8×8 board. It uses the values p 100, n 320, b 330, r 500, q 900 and k 20000; any other type counts 0. A white piece adds its value and a black piece subtracts it.
- `minimax` is a depth-limited minimax search with fail-soft alpha-beta pruning. It plays moves on the shared game object and takes them back.
- `minimaxRoot` searches every root move with the full window. It keeps the first move whose value is strictly greater than the best so far.
- `makeComputerMove` chooses between a random move and a search of depth 2 (mode `minimax2`) or depth 3 (any other mode).

**The chess rules engine** (`new Chess()`) is an external library. It appears here only through what the search uses:
- the ordered list of legal moves;
- the position a move leads to;
- the board of a position;
- whether the game is over.

Positions and moves are opaque types. The game object is a class that holds the current position and the undo stack.

**How the chess search is proved.** The search is compared with `MinimaxValue`, an unpruned minimax value defined as a pure function.
- `Minimax` returns a score that is fail-soft for that value with respect to its window (alpha, beta):
  - inside the window the score is exact;
  - at or below alpha it is an upper bound;
  - at or above beta it is a lower bound.
- With the full window (-Infinity, +Infinity), the score equals the value.
- Every call leaves the position and the undo stack as it found them, including when it stops at a cutoff.
- `MinimaxRoot` returns the move that `FirstBest` picks from the exact root values.
- `FirstBest` returns the earliest position of the maximum. It returns none exactly when every root value is -Infinity.

**scripts/lostpixel.js: a tile game.**
- The map is a 10×15 grid: 0 empty, 1 wall, 2 colour fragment, 3 portal.
- The player starts at (1, 1) with no fragment and steps one tile at a time.
- `move(dx, dy)` works as follows:
  - a wall stops the player;
  - a fragment is picked up, which clears its tile and adds one to the count;
  - standing on the portal wins once four fragments are held, and shows "sealed" before that.

`World` holds the grid as a 2-D array updated in place, plus the player's fields. `World.Move` is proved to do exactly what the pure `Step` function does. `Step` is proved to keep these invariants:
- the map stays walled all round;
- the player never stands on a wall and never leaves the map;
- fragments held plus fragments on the map always equal four.

Two behaviours of the chess source are modelled as written:
- **The root always maximizes.** `makeComputerMove` always calls `minimaxRoot(depth, true)` (scripts/chess.js:157), although the computer moves on Black's turn (scripts/chess.js:318, 325). The root therefore maximizes White's material.
- **The root can return null while moves exist.** This happens when every root value is -Infinity. The computer then makes no move.

## Model

| member | source | states |
|---|---|---|
| Evaluation.MaterialUpdate | scripts/chess.js:213-219 | each square contributes on its own: replacing one square changes the evaluation by exactly the new square's signed value minus the old one's |
| Evaluation.MaterialSwap | scripts/chess.js:210-218 | swapping the colour of every piece negates the evaluation |
| Evaluation.MaterialEmpty | scripts/chess.js:216 | a board with no pieces evaluates to 0 |
| Evaluation.MaterialBound | scripts/chess.js:210-218 | the evaluation lies within ±1,280,000 (64 kings), so it is always a finite score |
| Search.EvaluateBoard | scripts/chess.js:209-222 | the nested row/column loop returns exactly Material of the current board, the signed sum of the value table over occupied squares |
| ExtendedInt.Max | scripts/chess.js:190-191 | `Math.max` on scores: an upper bound of both arguments and equal to one of them |
| ExtendedInt.Min | scripts/chess.js:201-202 | `Math.min` on scores: a lower bound of both arguments and equal to one of them |
| ExtendedInt.MaxOf | scripts/chess.js:185-190 | the running maximum from -Infinity bounds every value, is one of them, and is -Infinity for no values |
| ExtendedInt.MinOf | scripts/chess.js:196-201 | the running minimum from +Infinity bounds every value from below, is one of them, and is +Infinity for no values |
| ExtendedInt.FullWindowExact | scripts/chess.js:171 | a fail-soft score for the window (-Infinity, +Infinity) is exact |
| Search.NoMovesValue | scripts/chess.js:183-205 | at depth > 0 a node without legal moves is worth -Infinity when maximizing and +Infinity when minimizing |
| Search.MaxChild | scripts/chess.js:190-192 | one child of a maximizing node: after updating maxEval and alpha, either the cutoff `beta <= alpha` makes maxEval fail-soft for the node's value, or the loop invariant carries over |
| Search.MaxDone | scripts/chess.js:194 | a maximizing node that tried every move returns a fail-soft score |
| Search.MinChild | scripts/chess.js:201-203 | one child of a minimizing node, mirrored: cutoff gives a fail-soft score, otherwise the invariant carries over |
| Search.MinDone | scripts/chess.js:205 | a minimizing node that tried every move returns a fail-soft score |
| Search.Minimax | scripts/chess.js:181-207 | the game's position and undo stack are unchanged; the score is fail-soft for the unpruned minimax value and exact for the full window; depth 0 returns evaluateBoard; no legal moves give -Infinity or +Infinity |
| Search.SearchChild | scripts/chess.js:187-189 | playing move i, searching one ply less with the other polarity and undoing leaves the game unchanged and gives a fail-soft score for child i's value |
| Search.MaxNode | scripts/chess.js:184-194 | the maximizing loop with its alpha update and `beta <= alpha` break leaves the game unchanged and returns a fail-soft score for the maximum of the child values |
| Search.MinNode | scripts/chess.js:195-206 | the minimizing loop with its beta update and break, mirrored |
| Search.FirstBest | scripts/chess.js:166-178 | the strict `>` scan from -Infinity selects none exactly when every value is -Infinity; otherwise the selected index holds the maximum and every earlier value is strictly smaller |
| Search.FirstBestStep | scripts/chess.js:173-176 | one more root value advances the running maximum and FirstBest exactly as the loop's strict comparison does |
| Search.RootStep | scripts/chess.js:168-177 | one iteration of the root loop keeps bestValue the maximum and bestMove the move at FirstBest of the values seen so far |
| Search.MoveAt | scripts/chess.js:166-178 | the returned move is null exactly when no index was selected, and is otherwise one of the legal moves |
| Search.MinimaxRoot | scripts/chess.js:164-179 | leaves the game unchanged and returns the move at FirstBest of the exact root values, searched one ply less with the opposite polarity |
| Search.DepthFor | scripts/chess.js:156 | the search depth is 2 for mode 'minimax2' and 3 for every other mode |
| Search.RandomIndex | scripts/chess.js:150 | `floor(r * len)` for r in [0, 1) is a valid index into the move list |
| Search.MakeComputerMove | scripts/chess.js:143-162 | plays nothing when the game is over or there are no moves; in random mode plays the move at RandomIndex; otherwise plays the MinimaxRoot move at DepthFor(mode) with isMax true, or nothing when that is null; a played move is legal and pushed on the undo stack |
| RulesEngine.Game.Move | scripts/chess.js:170 | a legal move advances the position and pushes the old one on the undo stack; an illegal one is refused and changes nothing |
| RulesEngine.Game.Undo | scripts/chess.js:172 | restores the position on top of the undo stack and pops it; with an empty stack nothing changes |
| LostPixel.InitialMapGems | scripts/lostpixel.js:9-20 | the level holds exactly four fragments |
| LostPixel.InitialMapWalled | scripts/lostpixel.js:9-20 | the level's outer rows and columns are all walls |
| LostPixel.InitialMapPlayable | scripts/lostpixel.js:9-22 | the level is walled, the start (1, 1) is not a wall, and it holds the four fragments the portal asks for |
| LostPixel.StartInv | scripts/lostpixel.js:22 | the player at (1, 1) with 0 fragments on a playable level satisfies the game invariant |
| LostPixel.KeyStep | scripts/lostpixel.js:81-86 | exactly the arrow keys and the lowercase keys w, a, s, d ask for a step: ArrowUp/w is (0, -1), ArrowDown/s (0, 1), ArrowLeft/a (-1, 0) and ArrowRight/d (1, 0) |
| LostPixel.InsideBorder | scripts/lostpixel.js:51 | on a walled map a non-wall tile is strictly inside the border, so a unit step from it stays on the map |
| LostPixel.CountRowCollect | scripts/lostpixel.js:58 | overwriting one fragment in a row lowers the row's fragment count by exactly one |
| LostPixel.CountTilesCollect | scripts/lostpixel.js:57-58 | clearing one fragment lowers the map's fragment count by exactly one |
| LostPixel.WalledCollect | scripts/lostpixel.js:58 | clearing an interior tile keeps the map walled |
| LostPixel.Step | scripts/lostpixel.js:47-69 | a wall is the only thing that keeps the player in place and then changes nothing; otherwise the player lands on (x+dx, y+dy); gems grows by one exactly on a fragment; Collected, Won and Sealed each hold exactly under their conditions |
| LostPixel.EnterInv | scripts/lostpixel.js:53-59 | entering a non-wall tile, picking up its fragment if any, keeps the invariant |
| LostPixel.StepInv | scripts/lostpixel.js:47-69 | every step keeps the invariant: walled map, player inside and not on a wall, gems plus fragments on the map equal four |
| LostPixel.StepTiles | scripts/lostpixel.js:51-59 | a step changes no tile except the target, and that only by clearing a fragment |
| LostPixel.WonClearsMap | scripts/lostpixel.js:64 | after a winning step no fragment is left on the map |
| LostPixel.NewGrid | scripts/lostpixel.js:9-20 | the array holds the level tile for tile |
| LostPixel.World.constructor | scripts/lostpixel.js:9-22 | the array holds the level, the player is at (1, 1) with no fragment, and the invariant holds |
| LostPixel.World.Move | scripts/lostpixel.js:47-72 | the in-place update of the array and the player fields produces exactly Step's state and outcome, and keeps the invariant |
| LostPixel.World.PickUp | scripts/lostpixel.js:57-59 | the tile under the player becomes empty in both the array and its row view, and gems goes up by one |

## Left out

- The chess rules engine's internals (legality, check and mate, draw rules, FEN/PGN/SAN) are not part of this model. The engine is abstract: a list of moves, a successor position, a board and a game-over test.
- RulesEngine.Game.Move: the library's `move` accepts SAN strings or from/to objects and returns the move or null. Here a move is an opaque token and the result is a flag.
- Search.MakeComputerMove: `Math.random()` is a parameter r with 0 <= r < 1. Floating-point rounding of `r * len` is not modelled.
- `updateUI` after a move is not modelled. Neither is the `setTimeout` scheduling that calls `makeComputerMove` on Black's turn.
- Search.MinimaxRoot: requires depth >= 1. Its only caller passes 2 or 3.
- Search.Minimax: `depth` is a natural number. The source would recurse without end on a negative depth, but no caller passes one.
- Scores are JavaScript numbers in the source and unbounded integers here. Evaluation.MaterialBound shows every evaluation is within ±1,280,000, well inside exact double range, so nothing is lost.
- Rendering and the DOM are not modelled: board rendering, square clicks, the status text, board flipping, resizing, fullscreen, `draw`, `showDialog` and its message text, and `alert`.
- Of the keyboard listener, only the key-to-step mapping (LostPixel.KeyStep) is modelled.
- The player's `color` field is only drawn, so it is left out.
- LostPixel.World.constructor: it takes the level as a parameter that must be playable. The script's own level literal is LostPixel.InitialMap, which InitialMapPlayable shows to be playable.
- LostPixel.World.Move: the source returns early on a wall; the model wraps the rest of the step in the opposite test, which behaves the same.
