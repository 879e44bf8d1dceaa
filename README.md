# 2048 rules engine, modelled in Dafny

This project models the game logic of the browser game 2048 in
`app/main.js`. That logic is made of three parts:
- `Tile`: a numbered tile with coordinates, a previous position and a merge marker.
- `Grid`: a size-by-size array of optional tiles, column-major (`cells[x][y]`).
- `GameManager`: score, `over` and `won` flags, setup, and the `move` operation.

`move` slides every tile as far as it can in one of four directions and
merges two equal tiles that meet. A merged tile takes part in no second
merge in the same move. After a move in which some tile changed cell, one
new tile of 2 or 4 spawns, and the game is over when no move remains.

The model has two layers.

* **Rules as values** (`tile.dfy`, `board.dfy`, `rules.dfy`). A board is
  `seq<seq<Option<Tile>>>`. Every grid query and every step of `move`
  (prepare, find the farthest position, merge or slide, traverse, spawn,
  game over) is a function of it. A move's traversal is a fold of
  `Rules.Resolve` over the cells that the traversal lists give, x outer and
  y inner.
* **The objects that change in place** (`grid.dfy`, `game.dfy`).
  - `Grids.Grid` keeps the tiles in an `array2<Option<Tile>>`.
  - `Game.GameManager` holds the grid, `score`, `over` and `won`.
  - Every method keeps the same loops as the source: `build`, `eachCell`
    in `availableCells` and `prepareTiles`, the do/while of
    `findFarthestPosition`, the nested `forEach` of `move`, and the
    triple loop of `tileMatchesAvailable`.
  - Each method is proved to compute the corresponding function of the
    first layer. For example, `GameManager.Move` ends in the state
    `Rules.Move(old(State()), ...)`.

Properties are proved about the functions in `traversal_laws.dfy`,
`sweep_laws.dfy`, `game_laws.dfy` and `power_laws.dfy` (every tile is a
power of two). `scenario.dfy` works through one
move: the row 2, 2, 4, empty moved left becomes 4, 4, empty, empty.

Randomness is a parameter:
- `Math.floor(Math.random() * n)` in `randomAvailableCell` is a function
  `pick: nat -> nat` with `pick(n) < n`;
- the draw `Math.random() < 0.9 ? 2 : 4` in `addRandomTile` is a `value`
  argument that must be 2 or 4.

## Model

| member | source | states |
|---|---|---|
| Tiles.NewTile | app/main.js:510-517 | a new tile stands at the given position, unmerged and without a previous position; its value is the given one, or 2 when that is 0 (`value \|\| 2`) |
| Tiles.Tile.SavePosition | app/main.js:519-521 | the previous position becomes the current coordinates; position, value and merge flag unchanged |
| Tiles.Tile.UpdatePosition | app/main.js:523-526 | the tile's coordinates become the given position; value, previous position and merge flag unchanged |
| Grids.Grid.constructor | app/main.js:233-239 | a fresh array of the given size, every slot empty |
| Grids.Grid.Build | app/main.js:242-250 | after the loops every slot is empty and the grid invariant holds |
| Boards.EmptyBoard | app/main.js:242-250 | a well-formed board of the given size whose every slot is empty; `Boards.EmptyBoardHasNoTiles` adds that it holds no tile and no value |
| Grids.Grid.CellContent | app/main.js:296-301 | the array slot for an on-board cell, nothing off the board, equal to `Boards.CellContent` |
| Boards.CellContent | app/main.js:296-301 | (a definition) the slot's tile for a cell on the board, nothing for a cell off it |
| Boards.WithinBounds | app/main.js:312-314 | (a definition) both coordinates lie in 0 .. size - 1; `Boards.AllCellsContains` shows these are exactly the cells the x-outer, y-inner loops visit |
| Grids.Grid.WithinBounds | app/main.js:312-314 | a position is within the grid exactly when `Boards.WithinBounds` holds for the grid's size |
| Boards.CellOccupied | app/main.js:292-294 | (a definition) a tile is stored at the cell; false for every cell off the board, as `cellContent` returning null gives |
| Grids.Grid.CellOccupied | app/main.js:292-294 | a cell is occupied exactly when `Boards.CellOccupied` holds on the grid's board |
| Grids.Grid.CellAvailable | app/main.js:288-294 | a cell is available exactly when `Boards.CellAvailable` holds: no tile is there, as `cellOccupied` negated gives |
| Boards.CellAvailable | app/main.js:288-290 | (a definition) the negation of `Boards.CellOccupied` |
| Grids.Grid.InsertTile | app/main.js:304-306 | the slot at the tile's own coordinates now holds it; nothing else changes; each tile still records its slot |
| Grids.Grid.RemoveTile | app/main.js:308-310 | the slot at the tile's coordinates is emptied; nothing else changes |
| Boards.InsertTile | app/main.js:304-306 | a well-formed board, where each tile stands at its own coordinates, stays well formed |
| Boards.InsertTileEffect | app/main.js:304-306 | the slot at the tile's coordinates holds the tile; every other slot is unchanged |
| Boards.RemoveTile | app/main.js:308-310 | a well-formed board stays well formed |
| Boards.RemoveTileEffect | app/main.js:308-310 | the slot at the tile's coordinates is empty; every other slot is unchanged |
| Grids.Grid.AvailableCells | app/main.js:261-280 | the `eachCell` loop returns `Boards.AvailableCells`, the empty cells in x-outer, y-inner order |
| Boards.AvailableCells | app/main.js:261-271 | (a definition) the empty cells among the board's cells in x-outer, y-inner order; its meaning is `Boards.AvailableCellsExact` |
| Boards.AvailableCellsExact | app/main.js:261-280 | a cell is listed exactly when it is on the board and empty; the list is strictly increasing in x-outer, y-inner order, so no cell appears twice |
| Grids.Grid.CellsAvailable | app/main.js:283-285 | true exactly when the list of available cells is not empty |
| Boards.CellsAvailable | app/main.js:283-285 | (a definition) the list of available cells is not empty; its meaning is `Boards.CellsAvailableExact` |
| Boards.CellsAvailableExact | app/main.js:283-285 | `cellsAvailable` holds exactly when some slot of the board is empty |
| Grids.Grid.RandomAvailableCell | app/main.js:253-259 | the element of `availableCells` that `pick` selects, or nothing when there is none |
| Boards.RandomAvailableCell | app/main.js:253-259 | a cell is returned exactly when one is available, and it is on the board and empty |
| Rules.GetVector | app/main.js:152-162 | keys 0 to 3 give one of the four unit vectors; every other key gives nothing (the source's `undefined`) |
| Rules.PositionsEqual | app/main.js:229-231 | true exactly when the two positions are equal |
| Rules.Reverse | app/main.js:174-175 | same length, element `i` is element `n - 1 - i` of the input |
| Rules.Traversal | app/main.js:165-178 | one coordinate list of `buildTraversals`: `i` at index `i`, or `size - 1 - i` when the vector component is +1 |
| Game.GameManager.BuildTraversals | app/main.js:165-178 | the push loop and the reversals give `Rules.BuildTraversals` |
| Rules.BuildTraversals | app/main.js:165-178 | (a definition) one `Rules.Traversal` list per vector component; its meaning is `TraversalLaws.BuildTraversalsPermutation` |
| TraversalLaws.BuildTraversalsPermutation | app/main.js:165-178 | both lists are permutations of 0 .. size - 1, strictly decreasing where the vector component is +1 and increasing otherwise |
| TraversalLaws.TraversalOrderGood | app/main.js:104-105 | the nested loops visit no cell twice, and every board cell ahead of a cell along the vector is visited before it |
| TraversalLaws.TraversalOrderCovers | app/main.js:104-105 | the nested loops visit exactly the board's cells, size × size of them |
| Rules.FindFarthestPosition | app/main.js:180-193 | the farthest position is always on the board |
| Rules.FarthestPositionFacts | app/main.js:180-193 | `next` is one step past `farthest` and is off the board or occupied; `farthest` is the start cell or an empty cell ahead of it; every cell strictly between the start and `next` is on the board and empty |
| Game.GameManager.FindFarthestPosition | app/main.js:180-193 | the do/while loop returns `Rules.FindFarthestPosition` |
| Rules.PrepareTiles | app/main.js:70-77 | every slot becomes its tile with the merge marker cleared and the position saved; empty slots stay empty |
| Game.GameManager.PrepareTiles | app/main.js:70-77 | the loop over the array leaves the grid equal to `Rules.PrepareTiles` of the old grid |
| SweepLaws.PreparePreserves | app/main.js:70-77 | every tile stays in its slot with its value and no tile is marked merged; tile count and value total unchanged |
| Game.GameManager.MoveTile | app/main.js:80-84 | the old slot is emptied and the tile, moved to `cell`, is stored there; it returns the moved tile |
| Rules.MoveTile | app/main.js:80-84 | the board keeps its size, and a well-formed board stays well formed (the stored tile carries its new coordinates) |
| Rules.MoveTileEffect | app/main.js:80-84 | the tile, with its coordinates set to `cell`, is stored at `cell`; its old slot is empty unless that is `cell`; every other slot is unchanged |
| Rules.MergeStep | app/main.js:114-128 | the board stays well formed and keeps its size; the branch field by field is `SweepLaws.MergeStepEffects` |
| Rules.SlideStep | app/main.js:129-131 | the board stays well formed and keeps its size; the branch field by field is `SweepLaws.SlideStepEffects` |
| Rules.Resolve | app/main.js:106-135 | one cell of the traversal keeps the board well formed and its size; which branch it takes is `SweepLaws.MergeRule` |
| Game.GameManager.Merge | app/main.js:114-128 | the merge branch leaves grid, score, `won` and `moved` equal to those of `Rules.MergeStep` |
| Game.GameManager.Slide | app/main.js:129-131 | the slide branch leaves grid and `moved` equal to those of `Rules.SlideStep`; score and `won` untouched |
| SweepLaws.MergeStepEffects | app/main.js:114-128 | merge branch: the target holds a new merged tile of double value, the moving tile's slot is empty, other slots unchanged; score grows by the new value; `won` is set when it is 2048 |
| Rules.MergedTile | app/main.js:115-116 | (a definition) a `Tiles.NewTile` of double the value at the target position, flagged as merged; its value is stated by `SweepLaws.MergeRule` |
| SweepLaws.SlideStepEffects | app/main.js:129-135 | slide branch: the tile moves to `farthest`, its old slot is emptied, other slots unchanged; `moved` is set when `farthest` is a different cell |
| SweepLaws.MergeRule | app/main.js:109-135 | a cell's tile merges exactly when the next cell holds an equal, unmerged tile; the merged tile is flagged, sits at `next` and doubles the value (2 for 0); otherwise no merge is recorded and `score` stays |
| SweepLaws.NoChainMerge | app/main.js:104-138 | in one move no two merges produce a tile in the same cell, and every merged tile is still in its cell, unchanged, at the end: no tile merges twice |
| SweepLaws.ResolutionAccounts | app/main.js:101-138 | over a whole traversal: tile values are conserved in total, each merge removes one tile, score grows by the sum of merged values and never falls, `won` is set exactly when a merge produced 2048 |
| SweepLaws.IneffectiveResolution | app/main.js:98-138 | if no tile changed cell, nothing merged, score and `won` are unchanged and the board is the prepared board |
| Game.GameManager.TraverseCell | app/main.js:106-136 | one cell of the traversal: grid, score, `won` and `moved` follow `Rules.Resolve` |
| Game.GameManager.Traverse | app/main.js:104-138 | the two nested loops leave grid, score, `won` and `moved` equal to the fold of `Rules.Resolve` over the traversal order |
| Rules.TraversalOrder | app/main.js:104-105 | (a definition) the cells of the `buildTraversals` lists, x outer and y inner; its meaning is `TraversalLaws.TraversalOrderGood` and `TraversalOrderCovers` |
| Rules.SweepCells | app/main.js:104-138 | folding `Rules.Resolve` over a list of cells keeps the board well formed and its size; what the fold conserves is `SweepLaws.ResolutionAccounts` |
| Rules.Resolution | app/main.js:96-138 | `prepareTiles`, then the fold over the traversal order, keeps the board well formed and its size; its effects are `SweepLaws.ResolutionAccounts` and `SweepLaws.IneffectiveResolution` |
| Game.GameManager.TraverseColumn | app/main.js:105-137 | the inner `forEach` over the y list extends the fold of `Rules.Resolve` by that column's cells, in order |
| Scenario.LeftScenario | app/main.js:104-135 | on a 4 by 4 board whose first row is 2, 2, 4, empty and is otherwise empty, moving left gives 4 (merged), 4, empty, empty; score + 4 and one merge recorded; `won` unchanged; the new 4 does not merge with the sliding 4 |
| Game.GameManager.Move | app/main.js:87-149 | the new state is `Rules.Move` of the old one; `actuate` is called exactly when the move was effective |
| Rules.Move | app/main.js:87-149 | a move keeps the board well formed and of the same size; its effects are stated by `GameLaws.FinishedGameIgnoresMoves`, `IneffectiveMove` and `EffectiveMove` |
| GameLaws.FinishedGameIgnoresMoves | app/main.js:91 | when the game is over or won, a move changes nothing |
| GameLaws.IneffectiveMove | app/main.js:98-149 | a move in which no tile changes cell spawns no tile and leaves score, `over`, `won` and every tile's slot and value unchanged |
| GameLaws.EffectiveMove | app/main.js:98-149 | after an effective move: score grows by the merged values; `won` iff a merge gave 2048; `over` is recomputed on the board after the spawn; the board before the spawn always has a free slot, so the value total grows by exactly the spawned value and the tile count falls by the merges and rises by one |
| GameLaws.EffectiveSpawns | app/main.js:98-149 | an effective move never leaves the board full, so `addRandomTile` always places a tile after it |
| GameLaws.FullSweepStill | app/main.js:104-138 | on a full board the traversal never loses merges, and if it records none it changes nothing and moves no tile |
| GameLaws.FullMoveMerges | app/main.js:98-138 | on a full board, a move in which a tile changes cell records at least one merge |
| GameLaws.TileCountFull | app/main.js:233-250 | a size × size grid holds at most size × size tiles, and exactly that many when no slot is empty |
| GameLaws.MoveMonotone | app/main.js:87-149 | no move lowers the score or produces a tile of value 0 or less |
| PowerLaws.Exponent | app/main.js:115 | every value `PowerOfTwo` accepts is `2^k` for some `k >= 1` |
| PowerLaws.Pow2IsPowerOfTwo | app/main.js:115 | every `2^k` with `k >= 1` is accepted by `PowerOfTwo` |
| PowerLaws.DoublePower | app/main.js:115 | the double of a power of two, as a merge produces, is a power of two |
| PowerLaws.PowersArePositive | app/main.js:115 | a board of powers of two has only positive values |
| PowerLaws.MergeStepPowers | app/main.js:114-128 | the merge branch keeps every tile a power of two |
| PowerLaws.SlideStepPowers | app/main.js:129-131 | the slide branch keeps every tile a power of two |
| PowerLaws.ResolutionPowers | app/main.js:98-138 | the traversal of a move keeps every tile a power of two |
| PowerLaws.SpawnKeepsPowers | app/main.js:51-58 | a spawn of 2 or 4 keeps every tile a power of two |
| PowerLaws.SetupPowers | app/main.js:29-48 | after `setup` every tile is a power of two |
| PowerLaws.MovePowers | app/main.js:87-149 | every move keeps every tile a power of two, 2 or more |
| Game.GameManager.Spawn | app/main.js:140-148 | a tile is added as `Rules.AddRandomTile` gives; `over` is set when no move is available afterwards; `actuate` is called once |
| Game.GameManager.AddRandomTile | app/main.js:51-58 | the grid becomes `Rules.AddRandomTile` of the old grid |
| Rules.AddRandomTile | app/main.js:51-58 | the spawn keeps the board well formed and its size; its effect is `GameLaws.AddRandomTileEffect` |
| GameLaws.AddRandomTileEffect | app/main.js:51-58 | on a full board nothing changes; otherwise one new unmerged tile of the given value appears on the empty cell `pick` selects, no other slot changes, tile count + 1 and value total + the value |
| GameLaws.SpawnKeepsValues | app/main.js:51-58 | when every tile is 2 or 4 and the value is 2 or 4, every tile is still 2 or 4 after the spawn |
| Game.GameManager.AddStartTiles | app/main.js:44-48 | `startTiles` spawns, one value each, give `Rules.AddStartTiles` |
| Rules.AddStartTiles | app/main.js:44-48 | the start tiles keep the board well formed and its size |
| GameLaws.StartTilesTwo | app/main.js:44-48 | two start tiles are two `addRandomTile` calls in order |
| Game.GameManager.Setup | app/main.js:29-41 | a fresh grid, score 0, both flags false, the start tiles, one `actuate` |
| Rules.Setup | app/main.js:29-41 | the new board is well formed and of the requested size; the rest is `GameLaws.SetupFacts` |
| GameLaws.SetupFacts | app/main.js:29-48 | after setup: score 0, neither over nor won, board of the requested size with 2 tiles (as many as there are slots on a smaller board), every tile 2 or 4 |
| Game.GameManager.constructor | app/main.js:9-20 | the new manager's state is `Rules.Setup` of its size and values, after one `actuate` |
| Game.GameManager.Restart | app/main.js:23-26 | the state is that of a new `setup`, with the one `actuate` that `setup` makes |
| Game.GameManager.Actuate | app/main.js:61-67 | the hand-over to the renderer is counted once |
| Game.GameManager.MovesAvailable | app/main.js:195-197 | the result is `cellsAvailable() \|\| tileMatchesAvailable()` on the current grid |
| Game.GameManager.TileMatchesAvailable | app/main.js:200-227 | the triple loop returns true exactly when some tile and its neighbour in one of the four directions have equal values |
| Rules.MovesAvailable | app/main.js:195-197 | (a definition) an empty slot exists or some tile has an equal neighbour; its meaning is `GameLaws.MovesAvailableExact` |
| Rules.TileMatchesAvailable | app/main.js:200-227 | (a definition) some tile and the cell one step along one of the four vectors hold equal values; its meaning is `GameLaws.TileMatchesExact` |
| GameLaws.TileMatchesExact | app/main.js:200-227 | `tileMatchesAvailable` holds exactly when two orthogonally adjacent tiles have equal value |
| GameLaws.MovesAvailableExact | app/main.js:195-227 | `movesAvailable` holds exactly when some slot is empty or two adjacent tiles are equal |
| GameLaws.NoMovesIsStuck | app/main.js:143-145 | when `movesAvailable` is false, no direction moves any tile: `over` is set only when the game really is stuck |
| GameLaws.PreparedMoves | app/main.js:70-77 | `prepareTiles` leaves `movesAvailable` unchanged |
| GameLaws.MoveKeepsOverTracks | app/main.js:87-149 | if `over` held exactly when no move was available, it still does after any move |
| GameLaws.SetupOverTracks | app/main.js:29-41 | on a board of size 2 or more, `setup` starts a game that has a move and is not over, so `over` holds exactly when no move is available |
| GameLaws.SingleSlotStuck | app/main.js:195-227 | a single-slot board holding a tile has no move available |
| GameLaws.SingleSlotSetup | app/main.js:29-41 | on a single-slot board `setup` leaves `over` false although no move is available |

## Left out

- The `HTMLActuator` (app/main.js:316-433) renders the state. `actuate` is modelled only as a ghost counter of hand-overs. The renderer's `restart`, called at app/main.js:24, only clears the on-screen message and is left out; the one hand-over `Restart` counts is `setup`'s own `actuate` (app/main.js:40).
- The `KeyboardInputManager` (app/main.js:435-508) and the page bootstrap (app/main.js:1-7) handle browser events. Here they are replaced by calls of `Move` and `Restart` with a `Direction`.
- `Math.random` becomes the `pick` function (`pick(n) < n`) and a spawn `value` required to be 2 or 4. The 90 % / 10 % distribution is not modelled.
- Tiles are values, not shared objects. The source stores a tile object and then moves it with `updatePosition`. The model stores the already-moved value, which is what the grid holds once the step ends. Aliasing between the grid and the local `tile` variable is not modelled.
- `mergedFrom` holds the two merged tiles in the source. Here it is a boolean, because the rules only test whether it is null.
- `previousPosition` is kept on every tile and updated as the source does. No property about it is stated, because only the renderer reads it.
- `eachCell` (app/main.js:274-280) takes a callback. Its loop is written out instead in `Grid.AvailableCells` and `GameManager.PrepareTiles`, its two callers in the core.
- `getVector` with a direction outside 0 to 3 returns `undefined`, and `move` would then fail on `vector.x`. The model's `Direction` type has only the four moves, and `Rules.GetVector` returns nothing for other keys.
- `setup` (app/main.js:29-41) never calls `movesAvailable`. On a board of size 1 its start tile fills the board, so no move exists, yet `over` stays false (`GameLaws.SingleSlotSetup`); on a board of size 0 there is no move either. `GameLaws.SetupOverTracks` therefore covers only sizes 2 and up, and from there `GameLaws.MoveKeepsOverTracks` keeps `over` exact.
- The empty `if (other) {}` in `tileMatchesAvailable` (app/main.js:215-216) does nothing and is left out.
- SweepLaws.ResolutionAccounts: value conservation and the score bound assume positive tile values (`Positive`). Every tile the game creates is 2, 4 or a merge of two equal positive tiles: `GameLaws.MoveMonotone` shows the assumption is kept, and `PowerLaws.SetupPowers`, `PowerLaws.MovePowers` and `PowerLaws.PowersArePositive` show every reachable board meets it.
- GameLaws.IneffectiveMove: states that slots, values, score and flags are unchanged. It does not claim the board is identical, because `prepareTiles` still clears merge markers and saves positions.
- Scenario.LeftScenario: one worked board with its first row filled; other boards with the same row and other rows occupied are covered only by the general lemmas.
