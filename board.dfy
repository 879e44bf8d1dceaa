/**
 * The grid's contents as a value: `b[x][y]` is the slot `cells[x][y]` of a
 * `Grid`.  Everything the source asks of a grid without changing it is a
 * function here; the `Grid` class refines these functions over its array.
 */
module Boards {
  import opened Options
  import opened Tiles

  type Board = seq<seq<Option<Tile>>>

  /** A square board: every column is as long as there are columns. */
  predicate IsBoard(b: Board)
  {
    forall x | 0 <= x < |b| :: |b[x]| == |b|
  }

  /** `withinBounds`. */
  predicate WithinBounds(size: int, position: Pos)
  {
    position.x >= 0 && position.x < size && position.y >= 0 && position.y < size
  }

  /** `cellContent`: the slot's tile, or nothing outside the board. */
  function CellContent(b: Board, cell: Pos): Option<Tile>
    requires IsBoard(b)
  {
    if WithinBounds(|b|, cell) then b[cell.x][cell.y] else None
  }

  /** `cellOccupied`. */
  predicate CellOccupied(b: Board, cell: Pos)
    requires IsBoard(b)
  {
    CellContent(b, cell).Some?
  }

  /** `cellAvailable`. */
  predicate CellAvailable(b: Board, cell: Pos)
    requires IsBoard(b)
  {
    !CellOccupied(b, cell)
  }

  /** The grid invariant: each tile records the slot that holds it. */
  predicate WellFormed(b: Board)
  {
    && IsBoard(b)
    && forall x, y | 0 <= x < |b| && 0 <= y < |b| && b[x][y].Some? ::
         b[x][y].value.Position() == Pos(x, y)
  }

  /** What `build` produces: `size` columns of `size` empty slots. */
  function EmptyBoard(size: nat): (b: Board)
    ensures WellFormed(b) && |b| == size
    ensures forall x, y | 0 <= x < size && 0 <= y < size :: b[x][y].None?
  {
    seq(size, _ => seq(size, _ => None))
  }

  /** Two boards with the same size and the same slots are equal. */
  lemma BoardExt(b1: Board, b2: Board)
    requires IsBoard(b1) && IsBoard(b2) && |b1| == |b2|
    requires forall x, y | 0 <= x < |b1| && 0 <= y < |b1| :: b1[x][y] == b2[x][y]
    ensures b1 == b2
  {
    forall x | 0 <= x < |b1|
      ensures b1[x] == b2[x]
    {
      assert forall y | 0 <= y < |b1| :: b1[x][y] == b2[x][y];
    }
  }

  /** The board with slot `cell` set to `c` and every other slot unchanged. */
  function SetCell(b: Board, cell: Pos, c: Option<Tile>): (r: Board)
    requires IsBoard(b) && WithinBounds(|b|, cell)
    ensures IsBoard(r) && |r| == |b|
  {
    b[cell.x := b[cell.x][cell.y := c]]
  }

  /** `insertTile`: store the tile at its own coordinates. */
  function InsertTile(b: Board, tile: Tile): (r: Board)
    requires IsBoard(b) && WithinBounds(|b|, tile.Position())
    ensures WellFormed(b) ==> WellFormed(r)
  {
    SetCell(b, tile.Position(), Some(tile))
  }

  /** `removeTile`: clear the slot at the tile's recorded coordinates. */
  function RemoveTile(b: Board, tile: Tile): (r: Board)
    requires IsBoard(b) && WithinBounds(|b|, tile.Position())
    ensures WellFormed(b) ==> WellFormed(r)
  {
    SetCell(b, tile.Position(), None)
  }

  /** `insertTile` stores the tile in its own slot and touches no other slot. */
  lemma InsertTileEffect(b: Board, tile: Tile)
    requires IsBoard(b) && WithinBounds(|b|, tile.Position())
    ensures var r := InsertTile(b, tile);
            && r[tile.x][tile.y] == Some(tile)
            && forall x, y | 0 <= x < |b| && 0 <= y < |b| && Pos(x, y) != tile.Position() :: r[x][y] == b[x][y]
  {
  }

  /** `removeTile` empties the tile's slot and touches no other slot. */
  lemma RemoveTileEffect(b: Board, tile: Tile)
    requires IsBoard(b) && WithinBounds(|b|, tile.Position())
    ensures var r := RemoveTile(b, tile);
            && r[tile.x][tile.y].None?
            && forall x, y | 0 <= x < |b| && 0 <= y < |b| && Pos(x, y) != tile.Position() :: r[x][y] == b[x][y]
  {
  }

  // ---------------------------------------------------------------------------
  // Visiting order: x outer, y inner (`eachCell`, and the traversals of `move`)
  // ---------------------------------------------------------------------------

  /** The list the source builds by pushing 0, 1, ..., n - 1. */
  function Range(n: nat): (r: seq<int>)
    ensures |r| == n && forall i | 0 <= i < n :: r[i] == i
  {
    seq(n, i => i)
  }

  lemma RangeContains(n: nat, k: int)
    ensures k in Range(n) <==> 0 <= k < n
  {
    if 0 <= k < n {
      assert Range(n)[k] == k;
    }
  }

  /** The cells of column `x` in the order `ys`. */
  function Column(x: int, ys: seq<int>): (r: seq<Pos>)
    ensures |r| == |ys| && forall j | 0 <= j < |ys| :: r[j] == Pos(x, ys[j])
  {
    seq(|ys|, j requires 0 <= j < |ys| => Pos(x, ys[j]))
  }

  /** The cells visited by two nested loops, over `xs` outside and `ys` inside. */
  function Order(xs: seq<int>, ys: seq<int>): (r: seq<Pos>)
    decreases |xs|
  {
    if xs == [] then [] else Order(xs[..|xs| - 1], ys) + Column(xs[|xs| - 1], ys)
  }

  /** The inner loop's step: one more cell of the column. */
  lemma ColumnStep(x: int, ys: seq<int>, j: int)
    requires 0 <= j < |ys|
    ensures Column(x, ys[..j + 1]) == Column(x, ys[..j]) + [Pos(x, ys[j])]
  {
  }

  /** The outer loop's step: one more column of cells. */
  lemma OrderStep(xs: seq<int>, ys: seq<int>, i: int)
    requires 0 <= i < |xs|
    ensures Order(xs[..i + 1], ys) == Order(xs[..i], ys) + Column(xs[i], ys)
  {
    assert xs[..i + 1][..i] == xs[..i];
  }

  lemma {:induction false} OrderContains(xs: seq<int>, ys: seq<int>, p: Pos)
    ensures p in Order(xs, ys) <==> p.x in xs && p.y in ys
    decreases |xs|
  {
    if xs != [] {
      var init := xs[..|xs| - 1];
      OrderContains(init, ys, p);
      assert xs == init + [xs[|xs| - 1]];
      if p in Column(xs[|xs| - 1], ys) {
        var j :| 0 <= j < |ys| && Column(xs[|xs| - 1], ys)[j] == p;
        assert p.y == ys[j];
      }
      if p.x == xs[|xs| - 1] && p.y in ys {
        var j :| 0 <= j < |ys| && ys[j] == p.y;
        assert Column(xs[|xs| - 1], ys)[j] == p;
      }
    }
  }

  /** Every cell of a board, in `eachCell` order. */
  function AllCells(size: nat): seq<Pos>
  {
    Order(Range(size), Range(size))
  }

  lemma AllCellsContains(size: nat, p: Pos)
    ensures p in AllCells(size) <==> WithinBounds(size, p)
  {
    OrderContains(Range(size), Range(size), p);
    RangeContains(size, p.x);
    RangeContains(size, p.y);
  }

  /** `p` comes before `q` in x-outer, y-inner order. */
  predicate Before(p: Pos, q: Pos)
  {
    p.x < q.x || (p.x == q.x && p.y < q.y)
  }

  predicate StrictlyOrdered(ps: seq<Pos>)
  {
    forall i, j | 0 <= i < j < |ps| :: Before(ps[i], ps[j])
  }

  lemma {:induction false} AllCellsOrdered(size: nat, k: nat)
    requires k <= size
    ensures StrictlyOrdered(Order(Range(k), Range(size)))
  {
    if k > 0 {
      AllCellsOrdered(size, k - 1);
      assert Range(k)[..k - 1] == Range(k - 1);
      var front, back := Order(Range(k - 1), Range(size)), Column(k - 1, Range(size));
      assert Order(Range(k), Range(size)) == front + back;
      forall p | p in front
        ensures p.x < k - 1
      {
        OrderContains(Range(k - 1), Range(size), p);
        RangeContains(k - 1, p.x);
      }
    }
  }

  // ---------------------------------------------------------------------------
  // Empty cells
  // ---------------------------------------------------------------------------

  /** The empty cells among `cells`, in the order of `cells`. */
  function EmptyAmong(b: Board, cells: seq<Pos>): seq<Pos>
    requires IsBoard(b)
    decreases |cells|
  {
    if cells == [] then []
    else
      var last := cells[|cells| - 1];
      EmptyAmong(b, cells[..|cells| - 1]) + (if CellAvailable(b, last) then [last] else [])
  }

  /** The loop step of `availableCells`: one more cell looked at. */
  lemma EmptyAmongStep(b: Board, cells: seq<Pos>, cell: Pos)
    requires IsBoard(b)
    ensures EmptyAmong(b, cells + [cell]) ==
            EmptyAmong(b, cells) + (if CellAvailable(b, cell) then [cell] else [])
  {
    assert (cells + [cell])[..|cells|] == cells;
  }

  lemma {:induction false} EmptyAmongContains(b: Board, cells: seq<Pos>, p: Pos)
    requires IsBoard(b)
    ensures p in EmptyAmong(b, cells) <==> p in cells && CellAvailable(b, p)
    decreases |cells|
  {
    if cells != [] {
      EmptyAmongContains(b, cells[..|cells| - 1], p);
      assert cells == cells[..|cells| - 1] + [cells[|cells| - 1]];
    }
  }

  lemma {:induction false} EmptyAmongOrdered(b: Board, cells: seq<Pos>)
    requires IsBoard(b) && StrictlyOrdered(cells)
    ensures StrictlyOrdered(EmptyAmong(b, cells))
    decreases |cells|
  {
    if cells != [] {
      var init, last := cells[..|cells| - 1], cells[|cells| - 1];
      EmptyAmongOrdered(b, init);
      forall p | p in EmptyAmong(b, init)
        ensures Before(p, last)
      {
        EmptyAmongContains(b, init, p);
        var i :| 0 <= i < |init| && init[i] == p;
        assert cells[i] == p;
      }
    }
  }

  /** `availableCells`: the empty cells, in `eachCell` order. */
  function AvailableCells(b: Board): seq<Pos>
    requires IsBoard(b)
  {
    EmptyAmong(b, AllCells(|b|))
  }

  /**
   * `availableCells` lists exactly the empty cells of the board, each once,
   * in x-outer, y-inner order.
   */
  lemma AvailableCellsExact(b: Board)
    requires IsBoard(b)
    ensures forall p :: p in AvailableCells(b) <==> WithinBounds(|b|, p) && b[p.x][p.y].None?
    ensures StrictlyOrdered(AvailableCells(b))
  {
    forall p
      ensures p in AvailableCells(b) <==> WithinBounds(|b|, p) && b[p.x][p.y].None?
    {
      EmptyAmongContains(b, AllCells(|b|), p);
      AllCellsContains(|b|, p);
    }
    AllCellsOrdered(|b|, |b|);
    EmptyAmongOrdered(b, AllCells(|b|));
  }

  /** `cellsAvailable`: `!!this.availableCells().length`. */
  predicate CellsAvailable(b: Board)
    requires IsBoard(b)
  {
    |AvailableCells(b)| > 0
  }

  lemma CellsAvailableExact(b: Board)
    requires IsBoard(b)
    ensures CellsAvailable(b) <==>
            exists x, y | 0 <= x < |b| && 0 <= y < |b| :: b[x][y].None?
  {
    if CellsAvailable(b) {
      var p := AvailableCells(b)[0];
      EmptyAmongContains(b, AllCells(|b|), p);
      AllCellsContains(|b|, p);
      assert b[p.x][p.y].None?;
    }
    if exists x, y | 0 <= x < |b| && 0 <= y < |b| :: b[x][y].None? {
      var x, y :| 0 <= x < |b| && 0 <= y < |b| && b[x][y].None?;
      EmptyAmongContains(b, AllCells(|b|), Pos(x, y));
      AllCellsContains(|b|, Pos(x, y));
    }
  }

  /**
   * A stand-in for `Math.random()`: given how many cells there are to choose
   * from, it names one of them.
   */
  ghost predicate ValidChooser(pick: nat -> nat)
  {
    forall n: nat :: 0 < n ==> pick(n) < n
  }

  /** `randomAvailableCell`, with the random index chosen by `pick`. */
  function RandomAvailableCell(b: Board, pick: nat -> nat): (r: Option<Pos>)
    requires IsBoard(b) && ValidChooser(pick)
    ensures r.Some? <==> CellsAvailable(b)
    ensures r.Some? ==> WithinBounds(|b|, r.value) && b[r.value.x][r.value.y].None?
  {
    var cells := AvailableCells(b);
    if |cells| > 0 then
      AvailableCellsExact(b);
      assert cells[pick(|cells|)] in cells;
      Some(cells[pick(|cells|)])
    else None
  }

  // ---------------------------------------------------------------------------
  // Sums over the board: tile count and total of tile values
  // ---------------------------------------------------------------------------

  function RowSum(column: seq<Option<Tile>>, f: Option<Tile> -> int): int
    decreases |column|
  {
    if column == [] then 0 else RowSum(column[..|column| - 1], f) + f(column[|column| - 1])
  }

  function BoardSum(b: Board, f: Option<Tile> -> int): int
    decreases |b|
  {
    if b == [] then 0 else BoardSum(b[..|b| - 1], f) + RowSum(b[|b| - 1], f)
  }

  function TileValue(c: Option<Tile>): int
  {
    if c.Some? then c.value.value else 0
  }

  function Occupancy(c: Option<Tile>): int
  {
    if c.Some? then 1 else 0
  }

  /** Every tile on the board has a positive value. */
  ghost predicate Positive(b: Board)
    requires IsBoard(b)
  {
    forall x, y | 0 <= x < |b| && 0 <= y < |b| && b[x][y].Some? :: b[x][y].value.value > 0
  }

  /** The sum of all tile values on the board. */
  function Total(b: Board): int
  {
    BoardSum(b, TileValue)
  }

  /** The number of tiles on the board. */
  function TileCount(b: Board): int
  {
    BoardSum(b, Occupancy)
  }

  lemma {:induction false} RowSumUpdate(column: seq<Option<Tile>>, j: int, c: Option<Tile>, f: Option<Tile> -> int)
    requires 0 <= j < |column|
    ensures RowSum(column[j := c], f) == RowSum(column, f) - f(column[j]) + f(c)
    decreases |column|
  {
    var n := |column|;
    if j == n - 1 {
      assert column[j := c][..n - 1] == column[..n - 1];
    } else {
      assert column[j := c][..n - 1] == column[..n - 1][j := c];
      RowSumUpdate(column[..n - 1], j, c, f);
    }
  }

  lemma {:induction false} BoardSumUpdate(b: Board, x: int, column: seq<Option<Tile>>, f: Option<Tile> -> int)
    requires 0 <= x < |b|
    ensures BoardSum(b[x := column], f) == BoardSum(b, f) - RowSum(b[x], f) + RowSum(column, f)
    decreases |b|
  {
    var n := |b|;
    if x == n - 1 {
      assert b[x := column][..n - 1] == b[..n - 1];
    } else {
      assert b[x := column][..n - 1] == b[..n - 1][x := column];
      BoardSumUpdate(b[..n - 1], x, column, f);
    }
  }

  /** Setting one slot changes a board sum by the difference at that slot. */
  lemma SetCellSum(b: Board, cell: Pos, c: Option<Tile>, f: Option<Tile> -> int)
    requires IsBoard(b) && WithinBounds(|b|, cell)
    ensures BoardSum(SetCell(b, cell, c), f) == BoardSum(b, f) - f(b[cell.x][cell.y]) + f(c)
  {
    RowSumUpdate(b[cell.x], cell.y, c, f);
    BoardSumUpdate(b, cell.x, b[cell.x][cell.y := c], f);
  }

  /** Setting one slot changes the total and the tile count by the difference at that slot. */
  lemma SetCellTotals(b: Board, cell: Pos, c: Option<Tile>)
    requires IsBoard(b) && WithinBounds(|b|, cell)
    ensures Total(SetCell(b, cell, c)) == Total(b) - TileValue(b[cell.x][cell.y]) + TileValue(c)
    ensures TileCount(SetCell(b, cell, c)) == TileCount(b) - Occupancy(b[cell.x][cell.y]) + Occupancy(c)
  {
    SetCellSum(b, cell, c, TileValue);
    SetCellSum(b, cell, c, Occupancy);
  }

  /** Storing a tile of positive value, or clearing a slot, keeps every value positive. */
  lemma SetCellPositive(b: Board, cell: Pos, c: Option<Tile>)
    requires IsBoard(b) && WithinBounds(|b|, cell) && Positive(b)
    requires c.Some? ==> c.value.value > 0
    ensures Positive(SetCell(b, cell, c))
  {
    var r: Board := SetCell(b, cell, c);
    forall x: int, y: int | 0 <= x < |b| && 0 <= y < |b| && r[x][y].Some?
      ensures r[x][y].value.value > 0
    {
      if Pos(x, y) != cell {
        assert r[x][y] == b[x][y];
      }
    }
  }

  /** A column holds at most one tile per slot, and that many exactly when no slot is empty. */
  lemma {:induction false} RowCount(column: seq<Option<Tile>>)
    ensures 0 <= RowSum(column, Occupancy) <= |column|
    ensures RowSum(column, Occupancy) == |column| <==> forall j | 0 <= j < |column| :: column[j].Some?
    decreases |column|
  {
    if column != [] {
      var init := column[..|column| - 1];
      RowCount(init);
      assert forall j | 0 <= j < |init| :: init[j] == column[j];
    }
  }

  /** Columns of `n` slots hold at most `n` tiles each. */
  lemma {:induction false} BoardCount(b: Board, n: nat)
    requires forall x | 0 <= x < |b| :: |b[x]| == n
    ensures 0 <= BoardSum(b, Occupancy) <= |b| * n
    decreases |b|
  {
    if b != [] {
      var m := |b|;
      BoardCount(b[..m - 1], n);
      RowCount(b[m - 1]);
      assert (m - 1) * n + n == m * n;
    }
  }

  /** ... and that many exactly when no slot is empty. */
  lemma {:induction false} BoardCountFull(b: Board, n: nat)
    requires forall x | 0 <= x < |b| :: |b[x]| == n
    ensures BoardSum(b, Occupancy) == |b| * n <==> forall x, y | 0 <= x < |b| && 0 <= y < n :: b[x][y].Some?
    decreases |b|
  {
    if b != [] {
      var m := |b|;
      var init := b[..m - 1];
      BoardCount(init, n);
      BoardCountFull(init, n);
      RowCount(b[m - 1]);
      assert (m - 1) * n + n == m * n;
      assert forall x | 0 <= x < m - 1 :: init[x] == b[x];
    }
  }

  lemma {:induction false} RowSumOfEmpty(column: seq<Option<Tile>>, f: Option<Tile> -> int)
    requires f(None) == 0
    requires forall j | 0 <= j < |column| :: column[j].None?
    ensures RowSum(column, f) == 0
    decreases |column|
  {
    if column != [] {
      RowSumOfEmpty(column[..|column| - 1], f);
    }
  }

  lemma {:induction false} BoardSumOfEmpty(b: Board, f: Option<Tile> -> int)
    requires f(None) == 0
    requires forall x, y | 0 <= x < |b| && 0 <= y < |b[x]| :: b[x][y].None?
    ensures BoardSum(b, f) == 0
    decreases |b|
  {
    if b != [] {
      var n := |b|;
      BoardSumOfEmpty(b[..n - 1], f);
      RowSumOfEmpty(b[n - 1], f);
    }
  }

  lemma EmptyBoardHasNoTiles(size: nat)
    ensures TileCount(EmptyBoard(size)) == 0 && Total(EmptyBoard(size)) == 0
  {
    BoardSumOfEmpty(EmptyBoard(size), Occupancy);
    BoardSumOfEmpty(EmptyBoard(size), TileValue);
  }
}
