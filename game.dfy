/**
 * `GameManager` (app/main.js): the game state that a move updates in place.
 * Each method is proved to compute the corresponding function of `Rules`.
 */
module Game {
  import opened Options
  import opened Tiles
  import opened Boards
  import opened Rules
  import opened Grids

  class GameManager {
    const size: nat
    const startTiles: nat
    var grid: Grid
    var score: int
    var over: bool
    var won: bool
    /** How many times `actuate` has handed the state to the renderer. */
    ghost var actuations: nat

    ghost predicate Valid()
      reads this`grid, grid, grid.cells
    {
      startTiles == 2 && grid.size == size && grid.Valid()
    }

    /** The state as a value: grid contents, score and the two flags. */
    ghost function State(): GameState
      reads this`grid, this`score, this`over, this`won, grid, grid.cells
      requires grid.Mirrors()
    {
      GameState(grid.board, score, over, won)
    }

    /** `new GameManager(size, ...)`: remember the size, then `setup`. */
    constructor (size: nat, pick: nat -> nat, values: seq<int>)
      requires ValidChooser(pick) && |values| == 2 && forall v <- values :: SpawnValue(v)
      ensures Valid() && this.size == size && fresh(grid) && fresh(grid.cells)
      ensures State() == Rules.Setup(size, pick, values)
      ensures actuations == 1
    {
      this.size := size;
      startTiles := 2;
      grid := new Grid(size);
      actuations := 0;
      new;
      Setup(pick, values);
    }

    /** `restart`: the renderer clears its message, then `setup`. */
    method Restart(pick: nat -> nat, values: seq<int>)
      requires Valid() && ValidChooser(pick) && |values| == startTiles
      requires forall v <- values :: SpawnValue(v)
      modifies this
      ensures Valid() && fresh(grid) && fresh(grid.cells)
      ensures State() == Rules.Setup(size, pick, values)
      ensures actuations == old(actuations) + 1
    {
      Setup(pick, values);
    }

    /** `setup`: a fresh grid, score 0, both flags down, the start tiles, `actuate`. */
    method Setup(pick: nat -> nat, values: seq<int>)
      requires startTiles == 2 && ValidChooser(pick) && |values| == startTiles
      requires forall v <- values :: SpawnValue(v)
      modifies this
      ensures Valid() && fresh(grid) && fresh(grid.cells)
      ensures State() == Rules.Setup(size, pick, values)
      ensures actuations == old(actuations) + 1
    {
      grid := new Grid(size);
      score := 0;
      over := false;
      won := false;
      AddStartTiles(pick, values);
      Actuate();
    }

    /** `addStartTiles`: `startTiles` calls of `addRandomTile`, one value each. */
    method AddStartTiles(pick: nat -> nat, values: seq<int>)
      requires Valid() && ValidChooser(pick) && |values| == startTiles
      requires forall v <- values :: SpawnValue(v)
      modifies grid`board, grid.cells
      ensures Valid()
      ensures grid.board == Rules.AddStartTiles(old(grid.board), pick, values)
    {
      for i := 0 to startTiles
        invariant Valid()
        invariant grid.board == Rules.AddStartTiles(old(grid.board), pick, values[..i])
      {
        assert values[..i + 1][..i] == values[..i];
        AddRandomTile(pick, values[i]);
      }
      assert values[..startTiles] == values;
    }

    /** `addRandomTile`: if a cell is free, put a tile of `value` on one chosen by `pick`. */
    method AddRandomTile(pick: nat -> nat, value: int)
      requires Valid() && ValidChooser(pick) && SpawnValue(value)
      modifies grid`board, grid.cells
      ensures Valid()
      ensures grid.board == Rules.AddRandomTile(old(grid.board), pick, value)
    {
      var available := grid.CellsAvailable();
      if available {
        var cell := grid.RandomAvailableCell(pick);
        var tile := NewTile(cell.value, value);
        grid.InsertTile(tile);
      }
    }

    /** `actuate`: hand the state to the renderer (only counted here). */
    method Actuate()
      modifies this`actuations
      ensures actuations == old(actuations) + 1
    {
      actuations := actuations + 1;
    }

    /** `prepareTiles`: `eachCell` clearing `mergedFrom` and saving each tile's position. */
    method PrepareTiles()
      requires Valid()
      modifies grid`board, grid.cells
      ensures Valid()
      ensures grid.board == Rules.PrepareTiles(old(grid.board))
    {
      var cells := grid.cells;
      ghost var before := grid.board;
      for x := 0 to size
        invariant forall i, j | 0 <= i < size && 0 <= j < size ::
                    cells[i, j] == if i < x then PrepareTile(before[i][j]) else before[i][j]
      {
        for y := 0 to size
          invariant forall i, j | 0 <= i < size && 0 <= j < size ::
                      cells[i, j] == if i < x || (i == x && j < y) then PrepareTile(before[i][j])
                                     else before[i][j]
        {
          var tile := cells[x, y];
          if tile.Some? {
            cells[x, y] := Some(tile.value.(mergedFrom := false).SavePosition());
          }
        }
      }
      grid.board := Rules.PrepareTiles(before);
      PrepareKeepsWellFormed(before);
    }

    /**
     * `moveTile`: clear the tile's old slot and store it at `cell`.  The
     * stored value already has the coordinates `updatePosition` gives the
     * source's tile object.
     */
    method MoveTile(tile: Tile, cell: Pos) returns (moved: Tile)
      requires Valid() && WithinBounds(size, tile.Position()) && WithinBounds(size, cell)
      modifies grid`board, grid.cells
      ensures Valid()
      ensures grid.board == Rules.MoveTile(old(grid.board), tile, cell)
      ensures moved == tile.UpdatePosition(cell)
    {
      grid.cells[tile.x, tile.y] := None;
      moved := tile.UpdatePosition(cell);
      grid.cells[cell.x, cell.y] := Some(moved);
      grid.board := Rules.MoveTile(grid.board, tile, cell);
    }

    /** `buildTraversals`: push 0 .. size - 1, then reverse where the component is +1. */
    method BuildTraversals(vector: Pos) returns (traversals: Traversals)
      ensures traversals == Rules.BuildTraversals(size, vector)
    {
      var xs: seq<int> := [];
      var ys: seq<int> := [];
      for pos := 0 to size
        invariant xs == Range(pos) && ys == Range(pos)
      {
        xs := xs + [pos];
        ys := ys + [pos];
      }
      if vector.x == 1 {
        xs := Reverse(xs);
      }
      if vector.y == 1 {
        ys := Reverse(ys);
      }
      traversals := Traversals(xs, ys);
    }

    /**
     * `findFarthestPosition`: step along `vector` while the next cell is on
     * the board and empty (the first step is taken unconditionally, as in the
     * source's do/while).
     */
    method FindFarthestPosition(cell: Pos, vector: Pos) returns (positions: Positions)
      requires Valid() && IsUnit(vector) && WithinBounds(size, cell)
      ensures positions == Rules.FindFarthestPosition(grid.board, cell, vector)
    {
      var previous := cell;
      var current := Add(previous, vector);
      while grid.WithinBounds(current) && grid.CellAvailable(current)
        invariant WithinBounds(size, previous) && current == Add(previous, vector)
        invariant Rules.FindFarthestPosition(grid.board, previous, vector) ==
                  Rules.FindFarthestPosition(grid.board, cell, vector)
        decreases Gap(size, previous, vector)
      {
        previous := current;
        current := Add(previous, vector);
      }
      positions := Positions(previous, current);
    }

    /** `movesAvailable`: `cellsAvailable() || tileMatchesAvailable()`. */
    method MovesAvailable() returns (r: bool)
      requires Valid()
      ensures r == Rules.MovesAvailable(grid.board)
    {
      r := grid.CellsAvailable();
      if !r {
        r := TileMatchesAvailable();
      }
    }

    /**
     * `tileMatchesAvailable`: scan every tile and its four neighbours, and
     * stop at the first pair of equal values.
     */
    method TileMatchesAvailable() returns (r: bool)
      requires grid.Mirrors()
      ensures r == Rules.TileMatchesAvailable(grid.board)
    {
      ghost var b := grid.board;
      for x := 0 to grid.size
        invariant forall i, j, d | 0 <= i < x && 0 <= j < |b| && 0 <= d < 4 :: !MatchAt(b, i, j, d)
      {
        for y := 0 to grid.size
          invariant forall i, j, d | 0 <= i < x && 0 <= j < |b| && 0 <= d < 4 :: !MatchAt(b, i, j, d)
          invariant forall j, d | 0 <= j < y && 0 <= d < 4 :: !MatchAt(b, x, j, d)
        {
          var tile := grid.CellContent(Pos(x, y));
          assert tile == b[x][y];
          if tile.Some? {
            for direction := 0 to 4
              invariant forall d | 0 <= d < direction :: !MatchAt(b, x, y, d)
            {
              var vector := GetVector(direction).value;
              var other := grid.CellContent(Pos(x + vector.x, y + vector.y));
              if other.Some? && other.value.value == tile.value.value {
                assert MatchAt(b, x, y, direction);
                return true;
              }
            }
          }
        }
      }
      return false;
    }

    /**
     * One cell of the traversal of `move` (the body of the inner `forEach`):
     * a merge with the tile at `next`, or a slide to `farthest`.
     */
    method TraverseCell(cell: Pos, vector: Pos, moved: bool, ghost s: Sweep) returns (movedAfter: bool)
      requires Valid() && IsUnit(vector)
      requires s.board == grid.board && s.score == score && s.won == won && s.moved == moved
      modifies this`score, this`won, grid`board, grid.cells
      ensures Valid()
      ensures var r := Resolve(s, cell, vector);
              grid.board == r.board && score == r.score && won == r.won && movedAfter == r.moved
    {
      var content := grid.CellContent(cell);
      if content.None? {
        return moved;
      }
      var tile := content.value;
      assert tile.Position() == cell;
      var positions := FindFarthestPosition(cell, vector);
      var next := grid.CellContent(positions.next);
      if next.Some? && next.value.value == tile.value && !next.value.mergedFrom {
        assert Resolve(s, cell, vector) == MergeStep(s, cell, tile, positions.next);
        movedAfter := Merge(cell, tile, positions.next, moved, s);
      } else {
        assert Resolve(s, cell, vector) == SlideStep(s, cell, tile, positions.farthest);
        movedAfter := Slide(cell, tile, positions.farthest, moved, s);
      }
    }

    /** The merge branch of the traversal of `move`. */
    method Merge(cell: Pos, tile: Tile, next: Pos, moved: bool, ghost s: Sweep) returns (movedAfter: bool)
      requires Valid() && WithinBounds(size, next) && WithinBounds(size, tile.Position())
      requires s.board == grid.board && s.score == score && s.won == won && s.moved == moved
      modifies this`score, this`won, grid`board, grid.cells
      ensures Valid()
      ensures var r := MergeStep(s, cell, tile, next);
              grid.board == r.board && score == r.score && won == r.won && movedAfter == r.moved
    {
      var merged := MergedTile(next, tile.value);
      grid.InsertTile(merged);
      grid.RemoveTile(tile);
      var moving := tile.UpdatePosition(next);
      score := score + merged.value;
      if merged.value == 2048 {
        won := true;
      }
      movedAfter := moved || !PositionsEqual(cell, moving.Position());
    }

    /** The slide branch of the traversal of `move`. */
    method Slide(cell: Pos, tile: Tile, farthest: Pos, moved: bool, ghost s: Sweep) returns (movedAfter: bool)
      requires Valid() && WithinBounds(size, farthest) && WithinBounds(size, tile.Position())
      requires s.board == grid.board && s.moved == moved
      modifies grid`board, grid.cells
      ensures Valid()
      ensures var r := SlideStep(s, cell, tile, farthest);
              grid.board == r.board && movedAfter == r.moved
    {
      var moving := MoveTile(tile, farthest);
      movedAfter := moved || !PositionsEqual(cell, moving.Position());
    }

    /**
     * The two nested `forEach` loops of `move`: resolve every cell in the
     * order of `traversals`, threading `moved`.
     */
    method Traverse(vector: Pos, traversals: Traversals, ghost start: Sweep) returns (moved: bool)
      requires Valid() && IsUnit(vector) && traversals == Rules.BuildTraversals(size, vector)
      requires start == Sweep(grid.board, score, won, false, [])
      modifies this`score, this`won, grid`board, grid.cells
      ensures Valid()
      ensures var r := SweepCells(start, TraversalOrder(size, vector), vector);
              grid.board == r.board && score == r.score && won == r.won && moved == r.moved
    {
      moved := false;
      var xs, ys := traversals.x, traversals.y;
      ghost var done: seq<Pos> := [];
      for i := 0 to |xs|
        invariant Valid()
        invariant done == Order(xs[..i], ys)
        invariant var r := SweepCells(start, done, vector);
                  grid.board == r.board && score == r.score && won == r.won && moved == r.moved
      {
        OrderStep(xs, ys, i);
        moved := TraverseColumn(xs[i], ys, vector, moved, start, done);
        done := done + Column(xs[i], ys);
      }
      assert xs[..|xs|] == xs;
    }

    /** The inner `forEach` of `move`: the cells of column `x`, in the order of `ys`. */
    method TraverseColumn(x: int, ys: seq<int>, vector: Pos, moved: bool, ghost start: Sweep, ghost done: seq<Pos>)
      returns (movedAfter: bool)
      requires Valid() && IsUnit(vector) && WellFormed(start.board) && |start.board| == size
      requires var r := SweepCells(start, done, vector);
               grid.board == r.board && score == r.score && won == r.won && moved == r.moved
      modifies this`score, this`won, grid`board, grid.cells
      ensures Valid()
      ensures var r := SweepCells(start, done + Column(x, ys), vector);
              grid.board == r.board && score == r.score && won == r.won && movedAfter == r.moved
    {
      movedAfter := moved;
      ghost var visited := done;
      for j := 0 to |ys|
        invariant Valid()
        invariant visited == done + Column(x, ys[..j])
        invariant var r := SweepCells(start, visited, vector);
                  grid.board == r.board && score == r.score && won == r.won && movedAfter == r.moved
      {
        var cell := Pos(x, ys[j]);
        SweepSnoc(start, visited, cell, vector);
        movedAfter := TraverseCell(cell, vector, movedAfter, SweepCells(start, visited, vector));
        ColumnStep(x, ys, j);
        visited := visited + [cell];
      }
      assert ys[..|ys|] == ys;
    }

    /**
     * `move`: nothing once the game is over or won; otherwise prepare the
     * tiles, resolve every cell in traversal order, and after an effective
     * move spawn a tile, recompute `over` and `actuate`.
     */
    method Move(direction: Direction, pick: nat -> nat, value: int)
      requires Valid() && ValidChooser(pick) && SpawnValue(value)
      modifies this`score, this`won, this`over, this`actuations, grid`board, grid.cells
      ensures Valid()
      ensures State() == Rules.Move(old(State()), direction, pick, value)
      ensures actuations == old(actuations) + (if Effective(old(State()), direction) then 1 else 0)
    {
      if over || won {
        return;
      }
      ghost var resolution := Resolution(grid.board, score, won, direction);
      var vector := Vector(direction);
      var traversals := BuildTraversals(vector);

      PrepareTiles();
      ghost var start := Sweep(grid.board, score, won, false, []);
      var moved := Traverse(vector, traversals, start);
      assert grid.board == resolution.board && score == resolution.score;
      assert won == resolution.won && moved == resolution.moved;

      if moved {
        Spawn(pick, value);
      }
    }

    /** The end of an effective `move`: spawn a tile, recompute `over`, `actuate`. */
    method Spawn(pick: nat -> nat, value: int)
      requires Valid() && ValidChooser(pick) && SpawnValue(value)
      modifies this`over, this`actuations, grid`board, grid.cells
      ensures Valid()
      ensures grid.board == Rules.AddRandomTile(old(grid.board), pick, value)
      ensures over == (old(over) || !Rules.MovesAvailable(grid.board))
      ensures actuations == old(actuations) + 1
    {
      AddRandomTile(pick, value);
      var available := MovesAvailable();
      if !available {
        over := true; // Game over!
      }
      Actuate();
    }
  }
}
