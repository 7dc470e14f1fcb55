# 2048 board engine in Dafny

This project models the board engine of a 2048 game, the class `Game2048` in
`game2048.py`, and proves properties of it. The engine owns an N x N board of
integers and a running score. Its methods slide and merge the tiles in one of
four directions, spawn a new tile, and tell whether the game can go on.

Cells are plain integers:

- `0` is an empty cell.
- A power of two is a tile.
- `-1` is a blocked cell. The practice layouts of the game's front end place
  these.

The model follows the code's own handling of `-1`:

- `compress` slides a blocked cell like any other non-empty cell.
- `merge` never joins it, because a cell merges only when its value is positive.
- `can_move` counts two adjacent blocked cells as a possible move.

The project has three modules:

- `Rows` (`rows.dfy`) holds the pure row operations: `Compress` (the
  left-pack), `MergePass` with its score `MergeGain` (the single merge pass),
  and `MoveRow` with `RowGain` (compress, merge, compress). Their lemmas cover
  sums, tile counts, which cells a pass may rewrite, and worked rows.
- `Grid` (`grid.dfy`) holds the board as a sequence of rows: the mirror and the
  transpose, the four slides written the way the code builds them from
  `move_left`, the list of empty cells and the spawn, and the `can_move`
  predicate. Its lemmas cover involutions, what each rebuild carries over, and
  when a board is stuck.
- `Game` (`game.dfy`) holds the class `Game2048`, with fields `size`, `board`
  and `score`. It has a method for every method of the engine that changes
  state or loops: the constructor, `spawn_tile`, `merge`, `move_left`,
  `reverse`, `transpose`, the three other moves, `move` and `can_move`.
  `compress` has no method: it changes no state, so it is the function
  `Rows.Compress`. Two methods have no counterpart in the
  code: `MoveRowLeft` is the body of `move_left`'s loop for one row, and
  `MoveIn` is the lookup in `move`'s table of directions. Each method is
  proved against the functions of `Rows` and `Grid`. `Merge` works in place on
  an array, as the code's `merge` does on its list.

The engine's random choices are parameters:

- `pick` picks the empty cell, taken modulo the number of empty cells, which
  are listed in row-major order.
- `four` is the outcome of the coin that makes the new tile a 4.

The constructor receives one such pair for each of its two spawns, as its
first parameters. Then come `size`, which defaults to 4 as in the code, and
the layout, which defaults to the empty sequence, the model's form of an
absent or empty `init_board`.

Four consequences of the code are worth stating:

- `compress` drops only zeros, so a blocked cell slides left with the tiles.
  `SlideLeftKeepsBlocked` shows that a row keeps its number of blocked cells.
- A merge keeps the row sum (`MergeSum`). The score rises by the sum of the
  doubled cells (`MergeGainIsRewrittenSum`).
- A second `move_left` without a spawn can change the board again:
  `[2, 2, 4, 0]` becomes `[4, 4, 0, 0]` and then `[8, 0, 0, 0]`
  (`MoveRowNotIdempotent`).
- Every slide and every spawn keeps each cell empty, blocked or a power of
  two (`SlideKeepsTileValues`, `SpawnKeepsTileValues`), because a merge
  doubles a power of two. The preset layouts of the front end hold only such
  values, and so does the board a game without a layout starts from.

## Model

| member | source | states |
|---|---|---|
| Rows.NonZero | game2048.py:25 | the kept cells are no more than the row's and none of them is empty |
| Rows.Compress | game2048.py:23-27 | a row no longer than the board comes back exactly `size` long, with the same non-empty cells in the same order |
| Rows.CompressPacked | game2048.py:23-27 | after compress every empty cell lies right of every non-empty cell |
| Rows.CompressIdempotent | game2048.py:23-27 | compressing twice is the same as compressing once |
| Rows.CompressUnique | game2048.py:23-27 | compress gives the only packed row of length `size` holding the row's non-empty cells in order |
| Rows.CompressSum | game2048.py:23-27 | compress keeps the row sum |
| Rows.CompressCount | game2048.py:23-27 | compress keeps the number of occurrences of every non-zero value, blocked cells included |
| Rows.CompressFullIsIdentity | game2048.py:23-27 | a full row of length `size` is left as it is |
| Rows.MergePass | game2048.py:29-36 | the pass keeps the row length |
| Rows.MergeGain | game2048.py:29-36 | the score added by a pass is never negative |
| Rows.MergeHead | game2048.py:31-35 | a positive leading pair becomes the doubled cell and an empty cell, adds twice its value, and the pass resumes after the pair |
| Rows.MergeAtStep | game2048.py:31-35 | one iteration of the loop at index i, followed by the rest of the pass, gives the whole pass and the whole score |
| Rows.MergeSum | game2048.py:29-36 | a merge pass keeps the row sum |
| Rows.MergeGainIsRewrittenSum | game2048.py:32-34 | the score added equals the sum of the cells the pass rewrote, which are the doubled cells |
| Rows.MergeOnlyPairs | game2048.py:32-35 | every cell the pass changes belongs to a pair of equal positive cells of the input that became a doubled cell and an empty one, so a cell of value 0 or -1 never merges and a doubled cell never merges again |
| Rows.MergeGreedy | game2048.py:31-35 | an equal positive pair at i merges unless the pass already emptied cell i as the right half of the pair at i - 1, so `[2, 2, 2]` merges once |
| Rows.MergeNoPairIsIdentity | game2048.py:32 | a row with no adjacent equal positive cells is unchanged and scores nothing |
| Rows.MergeTiles | game2048.py:32-35 | a pass never adds a tile, and a pass that scores removes at least one |
| Rows.MergeChangedScores | game2048.py:32-35 | a pass that changes the row scores a positive amount |
| Rows.MergeFindsPair | game2048.py:32-35 | a row holding an adjacent positive pair is changed by the pass |
| Rows.MergeNoRoomIsIdentity | game2048.py:32-35 | a pass whose result has no empty cell changed nothing |
| Rows.MergeCount | game2048.py:32 | a pass keeps the number of cells of every negative value, so blocked cells are never merged away |
| Rows.MoveRow | game2048.py:41-44 | a row of length `size` comes back `size` long |
| Rows.RowGain | game2048.py:42-43 | the score of one row's move is never negative |
| Rows.MoveRowKeepsSumAndTiles | game2048.py:41-44 | moving a row keeps its sum and never adds a tile |
| Rows.MoveRowCount | game2048.py:41-44 | moving a row keeps its blocked cells and every other negative value |
| Rows.MoveRowScoringChanges | game2048.py:41-47 | a row that scores is changed |
| Rows.MoveRowStuck | game2048.py:41-47 | a full row without an adjacent positive pair is unchanged and scores nothing |
| Rows.MoveRowWithPair | game2048.py:41-47 | a full row with an adjacent positive pair is changed |
| Rows.MovedRowHasRoom | game2048.py:41-47 | a row that a move changed has an empty cell afterwards |
| Rows.MergeFourEqual | game2048.py:29-44 | `[2, 2, 2, 2]` merges to `[4, 0, 4, 0]` for 8 points, not `[8, 0, 0, 0]`, and moves to `[4, 4, 0, 0]` |
| Rows.MoveRowMergesOnce | game2048.py:38-49 | `[2, 2, 4, 0]` moves to `[4, 4, 0, 0]`: the new 4 does not join the old one |
| Rows.MoveRowMergesFours | game2048.py:38-49 | `[4, 4, 0, 0]` moves to `[8, 0, 0, 0]` |
| Rows.MoveRowNotIdempotent | game2048.py:38-49 | `[2, 2, 4, 0]` moves to `[4, 4, 0, 0]`, which moves again to `[8, 0, 0, 0]` |
| Rows.DoubleIsPowerOfTwo | game2048.py:33 | doubling a power of two gives a power of two |
| Rows.NonZeroKeepsCellValues | game2048.py:25 | the non-empty cells of a row whose cells are all empty, blocked or tiles are again such cells |
| Rows.CompressKeepsCellValues | game2048.py:23-27 | compress keeps every cell empty, blocked or a tile |
| Rows.MergeKeepsCellValues | game2048.py:29-36 | the merge pass keeps every cell empty, blocked or a tile |
| Rows.MoveRowKeepsCellValues | game2048.py:41-44 | moving a row keeps every cell empty, blocked or a tile |
| Grid.EmptyGrid | game2048.py:11 | the fresh board is size x size |
| Grid.ReversedInvolution | game2048.py:69-71 | reversing a row twice gives it back |
| Grid.MirrorInvolution | game2048.py:69-71 | `reverse` twice gives the board back |
| Grid.TransposeInvolution | game2048.py:73-75 | `transpose` twice gives a square board back |
| Grid.Reversed | game2048.py:71 | `row[::-1]` has the row's length |
| Grid.Mirror | game2048.py:69-71 | the reversed board has as many rows as the board, each of the same length, and cell (r, c) is the board's cell (r, N-1-c) of that row |
| Grid.Transposed | game2048.py:73-75 | the transpose of an N x N board is N x N |
| Grid.SlideLeft | game2048.py:38-49 | move_left keeps the board N x N |
| Grid.LeftGain | game2048.py:38-49 | the score of move_left is never negative |
| Grid.RightGain | game2048.py:51-55 | the score of move_right is never negative |
| Grid.UpGain | game2048.py:57-61 | the score of move_up is never negative |
| Grid.DownGain | game2048.py:63-67 | the score of move_down is never negative |
| Grid.SlideRight | game2048.py:51-55 | move_right, built as reverse, move_left, reverse, keeps the board N x N |
| Grid.SlideUp | game2048.py:57-61 | move_up, built as transpose, move_left, transpose, keeps the board N x N |
| Grid.SlideDown | game2048.py:63-67 | move_down, built as transpose, move_right, transpose, keeps the board N x N |
| Grid.SlideLeftKeepsSums | game2048.py:38-49 | move_left keeps every row sum |
| Grid.SlideLeftKeepsBlocked | game2048.py:38-49 | move_left keeps the number of blocked cells in every row |
| Grid.SlideLeftNeverAddsTiles | game2048.py:38-49 | move_left never increases the number of tiles on the board |
| Grid.GainOfRows | game2048.py:39-45 | the score move_left has added after k rows is never negative |
| Grid.MovedRows | game2048.py:40-45 | after k rows, `new_board` holds exactly k rows |
| Grid.AnyRowChanged | game2048.py:39-47 | after k rows the flag is set exactly when moving one of those rows changed it |
| Grid.MovedRowsAreSlide | game2048.py:41-45 | the rows built by the first k iterations are the first k rows of the moved board |
| Grid.AnyRowChangedIff | game2048.py:46-47 | the flag after k iterations is set exactly when one of the first k rows changed |
| Grid.SlideLeftByRows | game2048.py:38-49 | the loop builds the moved board, and its flag is set exactly when the board changed |
| Grid.SlideLeftUnchangedGainsNothing | game2048.py:38-49 | a move_left that changes nothing scores nothing |
| Grid.EmptyInRow | game2048.py:17 | the cells listed for one row from column c on are exactly its empty cells there |
| Grid.EmptyFrom | game2048.py:17 | the cells listed from row r on are exactly the empty cells of those rows |
| Grid.EmptyCells | game2048.py:17 | the list holds exactly the empty cells, and it is empty exactly when the board is full |
| Grid.EmptyCellListed | game2048.py:17-19 | the board has an empty cell exactly when the row-major listing finds one |
| Grid.Spawn | game2048.py:15-21 | a full board is left alone; otherwise exactly one empty cell becomes a 2 or a 4 and every other cell is kept |
| Grid.SpawnTakesOneCell | game2048.py:15-21 | a spawn on a board with room leaves one empty cell fewer |
| Grid.MirrorCell | game2048.py:69-71 | cell (r, c) of the reversed board is cell (r, N-1-c) of the original |
| Grid.MirrorCarries | game2048.py:69-71 | reverse keeps whether the board has an empty cell, a mergeable pair, and equal neighbours |
| Grid.TransposeCarries | game2048.py:73-75 | transpose keeps whether the board has an empty cell, a mergeable pair, and equal neighbours |
| Grid.SlideRightChanged | game2048.py:51-55 | move_right changes the board exactly when move_left changes the reversed board |
| Grid.SlideUpChanged | game2048.py:57-61 | move_up changes the board exactly when move_left changes the transposed board |
| Grid.SlideDownChanged | game2048.py:63-67 | move_down changes the board exactly when move_right changes the transposed board |
| Grid.SlideLeftLeavesRoom | game2048.py:38-49 | a move_left that changes the board leaves an empty cell |
| Grid.SlideRightLeavesRoom | game2048.py:51-55 | a move_right that changes the board leaves an empty cell |
| Grid.SlideUpLeavesRoom | game2048.py:57-61 | a move_up that changes the board leaves an empty cell |
| Grid.SlideDownLeavesRoom | game2048.py:63-67 | a move_down that changes the board leaves an empty cell |
| Grid.UnchangedBoardScoresNothing | game2048.py:38-67 | in every direction a move that changes nothing scores nothing |
| Grid.SlideLeftStuck | game2048.py:38-49 | a full board without an adjacent positive pair is unchanged by move_left |
| Grid.StuckWithoutPair | game2048.py:38-67 | a full board without an adjacent positive pair is unchanged, with no score, in all four directions |
| Grid.HasEqualNeighbours | game2048.py:98-105 | two horizontally or vertically adjacent equal cells, blocked cells included; a pair merge would join is one of them |
| Grid.Movable | game2048.py:92-106 | the condition `can_move` tests: an empty cell or equal neighbours; a board with an empty cell or a mergeable pair satisfies it |
| Grid.TerminalIsStuck | game2048.py:92-106 | when can_move says no, all four moves leave the board unchanged and score nothing |
| Grid.FullBoardMovesIffPair | game2048.py:38-67 | a full board can be changed by some move exactly when two adjacent tiles hold the same positive value |
| Grid.UnmergeableNeighboursNeverEnd | game2048.py:92-106 | a full board whose only equal neighbours are not positive tiles is reported movable, yet no move changes it |
| Grid.BlockedPairNeverEnds | game2048.py:92-106 | the full board `[[-1, -1], [2, 4]]` is such a board: its two blocked cells make can_move say yes, and no move changes it |
| Grid.EmptyGridTileValues | game2048.py:11 | every cell of the fresh board is 0, so its cells are all empty, blocked or tiles |
| Grid.SlideLeftKeepsTileValues | game2048.py:38-49 | move_left keeps every cell empty, blocked or a tile |
| Grid.MirrorKeepsTileValues | game2048.py:69-71 | reverse keeps every cell empty, blocked or a tile |
| Grid.TransposeKeepsTileValues | game2048.py:73-75 | transpose keeps every cell empty, blocked or a tile |
| Grid.SlideRightKeepsTileValues | game2048.py:51-55 | move_right keeps every cell empty, blocked or a tile |
| Grid.SlideUpKeepsTileValues | game2048.py:57-61 | move_up keeps every cell empty, blocked or a tile |
| Grid.SlideDownKeepsTileValues | game2048.py:63-67 | move_down keeps every cell empty, blocked or a tile |
| Grid.SpawnKeepsTileValues | game2048.py:15-21 | a spawn keeps every cell empty, blocked or a tile, since it writes a 2 or a 4 |
| Game.DirectionNamed | game2048.py:79-85 | each of "left", "right", "up", "down" names its own direction, and every other name is none |
| Game.Slide | game2048.py:77-90 | the board after a move in direction d is N x N; if it changed, it has an empty cell; if it did not change, the move scored nothing |
| Game.SlideGain | game2048.py:77-90 | the score of a move is never negative |
| Game.StuckInEveryDirection | game2048.py:92-106 | on a board where can_move says no, a move in any direction changes nothing |
| Game.SlideKeepsTileValues | game2048.py:77-90 | a move in any direction keeps every cell empty, blocked or a tile |
| Game.Game2048.constructor | game2048.py:5-13 | a given layout is copied as it is and nothing is spawned; with no layout the board is empty and two tiles are spawned; the score starts at 0; the size defaults to 4; a board started without a layout holds only empty cells and tiles |
| Game.Game2048.SpawnTile | game2048.py:15-21 | a full board is left alone; otherwise exactly one empty cell becomes a 2 or a 4, every other cell is kept, and one empty cell fewer remains; a board whose cells are all empty, blocked or tiles stays so |
| Game.Game2048.Merge | game2048.py:29-36 | the in-place loop leaves the merge pass in the first `size` cells and raises the score by that pass's gain |
| Game.Game2048.MoveRowLeft | game2048.py:41-45 | compress, merge, compress on one row gives the moved row and adds that row's gain to the score |
| Game.Game2048.MoveLeft | game2048.py:38-49 | the board becomes the moved board, the score rises by the rows' gains, and the result is true exactly when the board changed |
| Game.Game2048.Reverse | game2048.py:69-71 | the board becomes its mirror image and stays N x N |
| Game.Game2048.Transpose | game2048.py:73-75 | the board becomes its transpose and stays N x N |
| Game.Game2048.MoveRight | game2048.py:51-55 | the board becomes the mirror of move_left on the mirror, and the result is true exactly when the board changed |
| Game.Game2048.MoveUp | game2048.py:57-61 | the board becomes the transpose of move_left on the transpose, and the result is true exactly when the board changed |
| Game.Game2048.MoveDown | game2048.py:63-67 | the board becomes the transpose of move_right on the transpose, and the result is true exactly when the board changed |
| Game.Game2048.MoveIn | game2048.py:79-86 | dispatching to a direction's method moves and scores as that direction and reports whether the board changed |
| Game.Game2048.Move | game2048.py:77-90 | an unknown name returns false and changes nothing; a known one moves, scores the move, spawns one tile exactly when the board changed and reports that; when can_move says no, nothing moves; a board whose cells are all empty, blocked or tiles stays so |
| Game.Game2048.CanMove | game2048.py:92-106 | the result is true exactly when some cell is empty or two adjacent cells hold the same value, blocked cells included |

## Left out

- `print_board` and the console loop under `__main__` (game2048.py:108-129) are
  output and keyboard input. The console loop calls `can_move` and `move`,
  which are modelled.
- The front end `gui_pyqt6.py` and the launcher `main.py` are not part of this
  model. The preset layouts in the front end matter here only because they
  contain the blocked value -1.
- The random choices in `spawn_tile` (game2048.py:20-21) are parameters. The
  uniform choice of cell and the 10% chance of a 4 are not modelled.
- Game.Game2048.constructor: requires a non-empty `init_board` to be
  `size` x `size`. The code takes any non-empty list of lists; a ragged or
  non-square layout would make `transpose` truncate rows through `zip`. The
  model does not describe those boards.
- Game.Game2048.constructor: the layout's rows are copied (`row[:]`), so the
  engine never shares a list with its caller. The model holds the board as an
  immutable value, so no aliasing can arise and none is modelled.
- Game.Game2048.Merge: changes the array it is given in place, as `merge`
  changes its list, but returns nothing. `merge` also returns that same list
  (game2048.py:36), which `move_left` then compresses; the model's caller
  reads the array instead.
- Game.Game2048.constructor: does not require a given layout to hold only
  empty cells, blocked cells and powers of two, as the code does not check it.
  The slides and spawns keep that property whenever the layout has it.
- Integers are unbounded. The code's Python integers are unbounded too, so
  nothing is lost there.
