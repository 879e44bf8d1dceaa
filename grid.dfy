/**
 * `Grid` (app/main.js): a size-by-size array of optional tiles, updated in
 * place.  `board` is its contents as a value; every operation is stated
 * against the functions of `Boards`.
 */
module Grids {
  import opened Options
  import opened Tiles
  import opened Boards

  class Grid {
    const size: nat
    const cells: array2<Option<Tile>>

    /** The slots as a value, column by column: `board[x][y]` is `cells[x, y]`. */
    ghost var board: Board

    /** The array is size by size, mirrors `board`, and every tile records its own slot. */
    ghost predicate Valid()
      reads this, cells
    {
      Mirrors() && WellFormed(board)
    }

    /** `board` is exactly the contents of `cells`. */
    ghost predicate Mirrors()
      reads this, cells
    {
      && cells.Length0 == size && cells.Length1 == size
      && IsBoard(board) && |board| == size
      && forall x, y | 0 <= x < size && 0 <= y < size :: board[x][y] == cells[x, y]
    }

    /** `new Grid(size)`: allocate the array, then `build` it. */
    constructor (size: nat)
      ensures Valid() && this.size == size && fresh(cells)
      ensures board == EmptyBoard(size)
    {
      this.size := size;
      cells := new Option<Tile>[size, size];
      new;
      Build();
    }

    /** `build`: every slot becomes empty. */
    method Build()
      requires cells.Length0 == size && cells.Length1 == size
      modifies this`board, cells
      ensures Valid() && board == EmptyBoard(size)
    {
      for x := 0 to size
        invariant forall i, j | 0 <= i < x && 0 <= j < size :: cells[i, j].None?
      {
        for y := 0 to size
          invariant forall i, j | 0 <= i < x && 0 <= j < size :: cells[i, j].None?
          invariant forall j | 0 <= j < y :: cells[x, j].None?
        {
          cells[x, y] := None;
        }
      }
      board := EmptyBoard(size);
    }

    /** `withinBounds`. */
    predicate WithinBounds(position: Pos)
      reads this
      ensures WithinBounds(position) <==> Boards.WithinBounds(size, position)
    {
      position.x >= 0 && position.x < size && position.y >= 0 && position.y < size
    }

    /** `cellContent`, read from the array. */
    function CellContent(cell: Pos): (r: Option<Tile>)
      reads this, cells
      requires Mirrors()
      ensures r == Boards.CellContent(board, cell)
    {
      if WithinBounds(cell) then cells[cell.x, cell.y] else None
    }

    /** `cellOccupied`. */
    predicate CellOccupied(cell: Pos)
      reads this, cells
      requires Mirrors()
      ensures CellOccupied(cell) <==> Boards.CellOccupied(board, cell)
    {
      CellContent(cell).Some?
    }

    /** `cellAvailable`. */
    predicate CellAvailable(cell: Pos)
      reads this, cells
      requires Mirrors()
      ensures CellAvailable(cell) <==> Boards.CellAvailable(board, cell)
    {
      !CellOccupied(cell)
    }

    /** `insertTile`: `cells[tile.x][tile.y] = tile`. */
    method InsertTile(tile: Tile)
      requires Valid() && WithinBounds(tile.Position())
      modifies this`board, cells
      ensures Valid() && board == Boards.InsertTile(old(board), tile)
    {
      cells[tile.x, tile.y] := Some(tile);
      board := Boards.InsertTile(board, tile);
    }

    /** `removeTile`: `cells[tile.x][tile.y] = null`. */
    method RemoveTile(tile: Tile)
      requires Valid() && WithinBounds(tile.Position())
      modifies this`board, cells
      ensures Valid() && board == Boards.RemoveTile(old(board), tile)
    {
      cells[tile.x, tile.y] := None;
      board := Boards.RemoveTile(board, tile);
    }

    /** `availableCells`: `eachCell` pushing every empty cell. */
    method AvailableCells() returns (available: seq<Pos>)
      requires Mirrors()
      ensures available == Boards.AvailableCells(board)
    {
      ghost var xs := Range(size);
      ghost var visited: seq<Pos> := [];
      available := [];
      for x := 0 to size
        invariant visited == Order(xs[..x], xs)
        invariant available == EmptyAmong(board, visited)
      {
        OrderStep(xs, xs, x);
        ghost var outer := visited;
        for y := 0 to size
          invariant visited == outer + Column(x, xs[..y])
          invariant available == EmptyAmong(board, visited)
        {
          ghost var cell := Pos(x, y);
          EmptyAmongStep(board, visited, cell);
          ColumnStep(x, xs, y);
          assert xs[y] == y;
          assert visited + [cell] == outer + Column(x, xs[..y + 1]);
          if cells[x, y].None? {
            available := available + [Pos(x, y)];
          }
          visited := visited + [cell];
        }
        assert xs[..size] == xs;
        assert xs[x] == x;
        assert visited == Order(xs[..x+1], xs);
      }
      assert xs[..size] == xs;
    }

    /** `cellsAvailable`: `!!this.availableCells().length`. */
    method CellsAvailable() returns (r: bool)
      requires Valid()
      ensures r == Boards.CellsAvailable(board)
    {
      var available := AvailableCells();
      r := |available| > 0;
    }

    /**
     * `randomAvailableCell`: an element of `availableCells()` chosen by `pick`,
     * or nothing when there is none.
     */
    method RandomAvailableCell(pick: nat -> nat) returns (r: Option<Pos>)
      requires Valid() && ValidChooser(pick)
      ensures r == Boards.RandomAvailableCell(board, pick)
    {
      var available := AvailableCells();
      if |available| > 0 {
        r := Some(available[pick(|available|)]);
      } else {
        r := None;
      }
    }
  }
}
