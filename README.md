# 2048 board engine, modelled in Dafny

This project models the game engine inside the `Game2048` class of `2048/2048.py`. The engine covers:

- the row merge (`merge`);
- the orientation plumbing (`transpose` and the direction dispatch of `move`);
- the terminal test (`can_move`);
- tile spawning (`spawn_tile`);
- the per-move state update (`move`, with the game-over flag that `update_ui` raises);
- `restart_game`.

The model proves properties of each part.

There are three modules, one per layer of the engine:

- `Rows` (rows.dfy) is one row.
  - `Compact` drops the empty cells.
  - `Combine` is a reference definition of the single left-to-right merge pass. Two equal neighbours merge, and the pass carries on after the pair.
  - `CombineGain` is what that pass adds to the score.
  - `MergeRow` and `MergePass` are the code's own loop. It works on an array that is updated in place: the left cell of an equal pair is doubled and the right cell zeroed. The loop is proved equal to the reference pass and its gain.
- `Boards` (boards.dfy) is the 4x4 board, a sequence of rows.
  - `Transpose` follows `zip(*board)`, which stops at the shortest row. `Reverse` is `[::-1]`.
  - `Moved` and `MoveGain` give the board and the score of each of the four directions, composed exactly as lines 133, 135, 137 and 139 compose them.
  - `CellCanMove` and `Movable` specify `can_move`.
  - `EmptyCells` is `spawn_tile`'s list of empty positions, in row-major order.
  - `SpawnedFrom` is the set of boards a spawn can leave.
- `Game` (game.dfy) is the class `Game2048`. Its fields are `board`, `score`, `highScore` and `gameOver`, and its methods change them the way the Python methods change `self`. `merge` adds each doubled value to `score` as it goes (line 155). The model adds the doubled values of one row inside `MergePass`, and `Merge` adds each row's total to `score`. The total added by a call is the same. `SpawnTile` picks any empty cell and either 2 or 4. The random choice is a nondeterministic choice, and the contract allows every outcome.

The vertical moves follow the code literally. `up` stores `merge(transpose(board))` without transposing back. `down` stores `merge(transpose(board[::-1]))[::-1]`. So row `k` after `up` is column `k` merged towards the top. Row `k` after `down` is column `3 - k`, read bottom to top and merged (`Boards.MovedRowsVertical`). `Boards.StuckBoard` shows the consequence. On a board where `can_move` fails, `up` stores the board's transpose, which differs from the board unless the board is symmetric. In the usual game, `up` and `down` slide tiles along columns. Lines 133 and 135 do not transpose back, and the model follows those lines.

## Model

| member | source | states |
|---|---|---|
| Rows.MergeRow | 2048/2048.py:150-158 | The row `merge` appends for one input row is the compacted row after one reference merge pass, padded with zeros to the width. The score it adds is the sum of the doubled cells of that pass. |
| Rows.MergePass | 2048/2048.py:152-156 | The in-place loop over a compacted row, on an array. Its result, compacted again, is the reference pass `Combine`, and its gain is `CombineGain`. A cell doubled at step i is never compared again, because its right neighbour becomes 0. |
| Rows.Combine | 2048/2048.py:152-156 | Reference definition of the single left-to-right pass over a compacted row. Two equal neighbours merge into their double and the pass resumes after the pair. Its contract says the result is no longer than the input and keeps a row without empty cells free of them. `MergePass` is proved to compute it. |
| Rows.CombineGain | 2048/2048.py:153-155 | Reference definition of what the pass adds to the score: the sum of the doubles made by the same pairs that `Combine` merges. `MergePass` is proved to compute it. |
| Rows.Compact | 2048/2048.py:151 | Defines `[value for value in row if value != 0]` by recursion on the row. Its contract says the result has no empty cell and is no longer than the row. |
| Rows.Pad | 2048/2048.py:158 | Defines `s + [0] * (width - len(s))`. A negative repetition count gives no zeros. |
| Rows.MergedRow | 2048/2048.py:151-158 | Defines the row `merge` appends for one input row: compact, one merge pass, then pad to the width. `MergeRow` is proved to compute it. |
| Rows.RowGain | 2048/2048.py:153-155 | Defines what `merge` adds to the score for one row: the sum of the cells doubled by the pass over the compacted row. `MergeRow` is proved to compute it. |
| Rows.CompactMembers | 2048/2048.py:151 | The comprehension `[value for value in row if value != 0]` keeps only values that occur in the row. Its contract on `Compact` says the result has no empty cell and is no longer than the row. |
| Rows.CompactAppend | 2048/2048.py:151 | Compacting a concatenation compacts each part. |
| Rows.CompactFixedPoints | 2048/2048.py:151 | Compaction leaves a row unchanged if and only if the row has no empty cell. |
| Rows.CombineFixedPoints | 2048/2048.py:152-156 | The merge pass leaves a compacted row unchanged if and only if no two neighbours are equal. |
| Rows.CombineNoCascade | 2048/2048.py:152-157 | No cascade. The merged row is the compacted row cut, in order, into blocks: each block is a single cell kept as it is, or an equal adjacent pair replaced by its double (`OnePairPerCell`). Hence every value of a merged row is a value of the input or the double of one, and the merged row is at least half as long as the input. |
| Rows.CascadesExcluded | 2048/2048.py:152-157 | The block cut rules out cascades: [2,2,4] cannot give [8], [2,2,4,4] cannot give [8,4], and [4,2,2,4] cannot give [4,8]. |
| Rows.MergedRowTiles | 2048/2048.py:151-158 | A row of tiles (0 or a power of two of at least 2) merges into a row of tiles. |
| Rows.MergedRowShape | 2048/2048.py:157-158 | A row no longer than the width merges into exactly `width` cells. The occupied cells form a prefix and the zeros the rest. |
| Rows.CombineSum | 2048/2048.py:153-156 | The merge pass keeps the sum of the row. |
| Rows.CombineGainBounds | 2048/2048.py:153-156 | For positive cells, the pass's score lies between 0 and the row's sum. It is 0 if and only if no neighbours are equal, and 0 if and only if the pass keeps the row's length. |
| Rows.MergedRowSum | 2048/2048.py:151-158 | `merge` keeps the sum of every row. |
| Rows.RowGainBounds | 2048/2048.py:153-158 | For a row of tiles, the score `merge` adds is between 0 and the row's sum. The merged row has no more occupied cells than before, and the score is 0 if and only if the number of occupied cells is unchanged. |
| Rows.SettledRow | 2048/2048.py:151-158 | A full row with no equal neighbours merges into itself and earns nothing. |
| Rows.NoMergeNoGain | 2048/2048.py:153-156 | A pass over a row without equal neighbours earns nothing. |
| Rows.MergeFourTwos | 2048/2048.py:151-158 | [2,2,2,2] merges into [4,4,0,0] for 8 points, not into a single 8. |
| Rows.MergeNoCascade | 2048/2048.py:152-157 | [2,2,4,0] merges into [4,4,0,0] for 4 points, not into a single 8. |
| Rows.MergeAcrossGap | 2048/2048.py:151-158 | [2,0,2,4] merges into [4,4,0,0] for 4 points. |
| Rows.MergeNoRemerge | 2048/2048.py:152-157 | [4,4,8,0] merges into [8,8,0,0] for 8 points. The new 8 is not merged again. |
| Boards.Reverse | 2048/2048.py:135 | Defines `s[::-1]`: the same elements in the opposite order. |
| Boards.ReverseEach | 2048/2048.py:139 | Defines `[row[::-1] for row in board]`: every row reversed in place of the original. |
| Boards.Transpose | 2048/2048.py:161-162 | Defines `[list(row) for row in zip(*board)]`: row j is column j of the board, for every j below the length of the shortest row. |
| Boards.MergedBoard | 2048/2048.py:148-159 | Defines the board `merge` returns: row i is the merge of input row i. |
| Boards.BoardGain | 2048/2048.py:153-155 | Defines what one `merge` call adds to the score: the sum over the rows of each row's gain. |
| Boards.Moved | 2048/2048.py:131-139 | Defines the board `move` stores for each direction: `up` is merge(transpose(b)), `down` is merge(transpose(b[::-1]))[::-1], `left` is merge(b), and `right` reverses each row, merges, and reverses each row back. |
| Boards.MoveGain | 2048/2048.py:131-139 | Defines what `move` adds to the score for each direction: the gain of the `merge` call on that branch's reoriented board. |
| Boards.CellCanMove | 2048/2048.py:167-172 | Defines the three tests `can_move` makes at cell (i, j): the cell is empty, or equals the cell below it, or equals the cell to its right. |
| Boards.Movable | 2048/2048.py:164-173 | Defines the value of `can_move`: some cell of the grid passes one of the three tests. |
| Boards.Placed | 2048/2048.py:91 | Defines the board after `self.board[i][j] = v`: cell (i, j) holds v and every other cell is unchanged. |
| Boards.SpawnedFrom | 2048/2048.py:87-91 | Defines the boards `spawn_tile` can leave. With no empty cell, the board is unchanged. Otherwise one cell that was empty now holds 2 or 4, and no other cell changed. |
| Boards.Shortest | 2048/2048.py:162 | The length where `zip` stops is at most the length of every row and equal to the length of one of them. |
| Boards.TransposeShape | 2048/2048.py:161-162 | The transpose of a 4x4 board is a 4x4 board with cell (j, i) at (i, j). |
| Boards.TransposeInvolution | 2048/2048.py:161-162 | Transposing a 4x4 board twice gives it back. |
| Boards.TransposeRows | 2048/2048.py:161-162 | Row k of a transposed 4x4 board is column k of the board. |
| Boards.TransposeTiles | 2048/2048.py:161-162 | Transposing keeps a board of tiles a board of tiles. |
| Boards.TransposeTotal | 2048/2048.py:161-162 | Transposing keeps every sum over the cells. |
| Boards.MergedBoardShape | 2048/2048.py:148-159 | `merge` maps a 4x4 board of tiles to a 4x4 board of tiles. |
| Boards.MovedShape | 2048/2048.py:131-139 | Every direction leaves a 4x4 board of tiles. |
| Boards.MovedRowsHorizontal | 2048/2048.py:136-139 | `left` replaces each row r by merge(r). `right` replaces it by reverse(merge(reverse(r))). |
| Boards.MovedRowsVertical | 2048/2048.py:132-135 | `up` stores as row k the merged column k. `down` stores as row k the merged column 3-k read bottom to top. Neither is turned back into columns. |
| Boards.MovedRowsDown | 2048/2048.py:134-135 | The `down` half of the above, through `[::-1]`, transpose, merge and `[::-1]`. |
| Boards.MovedSum | 2048/2048.py:131-139 | Every move keeps the sum of the tiles. |
| Boards.MergedBoardSum | 2048/2048.py:148-159 | `merge` keeps the sum of the board. |
| Boards.MergedBoardGain | 2048/2048.py:148-159 | The score of a `merge` call lies between 0 and the sum of the tiles. It is 0 if and only if no occupied cell is lost. |
| Boards.MoveGainBounds | 2048/2048.py:131-139 | The score of a move in any direction lies between 0 and the sum of the tiles. It is 0 if and only if the move loses no occupied cell. |
| Boards.UnchangedEarnsNothing | 2048/2048.py:131-141 | A move that leaves the board equal to the original earns no score. |
| Boards.BoardTotalReverse | 2048/2048.py:135 | Turning a board upside down keeps every sum over its cells. |
| Boards.SettledRows | 2048/2048.py:148-159 | A board of full rows without equal neighbours merges into itself and earns nothing. |
| Boards.StuckBoard | 2048/2048.py:164-173 | On a board where `can_move` fails, every move earns 0. `left` and `right` leave the board alone, `up` stores its transpose, and `down` stores reverse(transpose(reverse(b))). |
| Boards.StuckHorizontal | 2048/2048.py:136-139 | The `left`/`right` half of the above. |
| Boards.StuckUp | 2048/2048.py:132-133 | The `up` half of the above. |
| Boards.StuckDown | 2048/2048.py:134-135 | The `down` half of the above. |
| Boards.CheckerboardIsStuck | 2048/2048.py:164-173 | A full board of alternating 2s and 4s cannot move. |
| Boards.EmptyFrom | 2048/2048.py:88 | The positions collected from (i, j) onwards, row-major, are exactly the empty cells at or after (i, j). |
| Boards.EmptyCells | 2048/2048.py:88 | `empty_cells` holds exactly the positions of the empty cells. |
| Boards.EmptyBoard | 2048/2048.py:80 | `[[0] * 4 for _ in range(4)]` is a 4x4 board of empty rows. |
| Boards.EmptyCellMakesRoom | 2048/2048.py:164-168 | A board with an empty cell has an entry in `empty_cells` and can move. |
| Boards.RoomWhenSparse | 2048/2048.py:164-173 | A board with fewer than 16 occupied cells has an empty cell and can move. |
| Boards.FullBoardCount | 2048/2048.py:164-168 | A board without empty cells has 4 occupied cells per row. |
| Boards.PlacedOutcome | 2048/2048.py:91 | Writing a 2 or a 4 into an empty cell keeps a 4x4 board of tiles. It adds one occupied cell, and the sum grows by that value. |
| Boards.PlacedIsSpawn | 2048/2048.py:89-91 | Writing a 2 or a 4 into an empty cell is one of the outcomes `spawn_tile` allows. |
| Boards.SpawnOutcome | 2048/2048.py:87-91 | After a spawn the board is still a 4x4 board of tiles. With no empty cell it is unchanged. Otherwise exactly one more cell is occupied, and the sum grew by 2 or 4. |
| Boards.SpawnKeepsSmallTiles | 2048/2048.py:87-91 | A spawn keeps a board of 0s, 2s and 4s one. |
| Boards.EmptyRowsFacts | 2048/2048.py:80 | The cleared board holds only 0s, has an empty cell and counts no occupied cell. |
| Boards.TwoSpawnsFromEmpty | 2048/2048.py:80-84 | Two spawns on the cleared board leave exactly two occupied cells, each 2 or 4, and a board that can move. |
| Boards.TwoTwosMergeLeft | 2048/2048.py:137-141 | Two 2s side by side in the top row merge left into a 4 for 4 points, and the board changes. |
| Game.Game2048.constructor | 2048/2048.py:12-17 | A new game has score 0, the saved high score, no game-over flag and a board with exactly two tiles, each 2 or 4. |
| Game.Game2048.Restart | 2048/2048.py:79-85 | The board is the result of two spawns on the cleared board: two occupied cells, each 2 or 4. The score is 0, the flag is cleared and the high score is kept. |
| Game.Game2048.SpawnTile | 2048/2048.py:87-91 | Only the board changes, into one of the boards a spawn allows. |
| Game.Game2048.Merge | 2048/2048.py:148-159 | The returned board is every row merged, and the score grows by exactly the sum of the rows' gains. |
| Game.Game2048.CanMove | 2048/2048.py:164-173 | Changes nothing. The result is true if and only if some cell is empty or equals its right or lower neighbour. |
| Game.Game2048.UpdateGameOver | 2048/2048.py:107-108 | The flag is raised when the board cannot move and is never lowered. |
| Game.Game2048.Shift | 2048/2048.py:131-139 | The board becomes the moved board of the direction, composed as each branch of the code does, and the score grows by that move's gain. |
| Game.Game2048.Move | 2048/2048.py:127-146 | If the game is over, nothing changes. Otherwise the score grows by the move's gain. If the moved board equals the original: board, score and high score are kept. If it differs: a tile spawns on the moved board and the high score becomes the larger of itself and the score. Afterwards the game is over exactly when the board cannot move, and the high score never decreases. |

## Left out

- The tkinter user interface is not modelled: `init_ui`, the drawing loop of `update_ui`, `show_game_over` and the key bindings. It is presentation. Only the game-over test of `update_ui` (lines 107-108) is kept, as `UpdateGameOver`.
- `load_high_score` and `save_high_score` read and write a file. The constructor takes the loaded value as a parameter. The high-score update in `move` is a field assignment, without the file write.
- `get_tile_colors` is not modelled. It is a colour lookup used only for drawing.
- The probabilities of `random.choice` are not modelled. Each spawn is a nondeterministic choice, and the contracts state only the set of possible outcomes.
- The direction is a datatype of the four directions the key bindings send. A string outside the four would leave the board as it is; no caller sends one.
- Python integers are unbounded, like Dafny's `int`, so no overflow is modelled. None occurs in the source.
