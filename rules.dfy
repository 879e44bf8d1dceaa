/**
 * The game rules of `GameManager` (app/main.js) as functions over board
 * values.  The imperative `GameManager` and `Grid` classes are proved to
 * compute exactly these functions; the properties of the rules are proved
 * about the functions in the `*_laws.dfy` files.
 */
module Rules {
  import opened Options
  import opened Tiles
  import opened Boards

  /** The four moves the input manager emits, with their numeric codes. */
  datatype Direction = Up | Right | Down | Left
  {
    function Code(): int
    {
      match this
      case Up => 0
      case Right => 1
      case Down => 2
      case Left => 3
    }
  }

  /** One of the four unit vectors of `getVector`'s table. */
  predicate IsUnit(vector: Pos)
  {
    vector == Pos(0, -1) || vector == Pos(1, 0) || vector == Pos(0, 1) || vector == Pos(-1, 0)
  }

  /**
   * `getVector`: a lookup in a table keyed 0 to 3; any other key gives
   * `undefined`, here `None`.
   */
  function GetVector(direction: int): (r: Option<Pos>)
    ensures r.Some? <==> 0 <= direction < 4
    ensures r.Some? ==> IsUnit(r.value)
  {
    if direction == 0 then Some(Pos(0, -1))       // up
    else if direction == 1 then Some(Pos(1, 0))   // right
    else if direction == 2 then Some(Pos(0, 1))   // down
    else if direction == 3 then Some(Pos(-1, 0))  // left
    else None
  }

  /** The vector of a move. */
  function Vector(direction: Direction): (v: Pos)
    ensures IsUnit(v)
  {
    GetVector(direction.Code()).value
  }

  /** `positionsEqual`. */
  function PositionsEqual(first: Pos, second: Pos): (r: bool)
    ensures r <==> first == second
  {
    first.x == second.x && first.y == second.y
  }

  // ---------------------------------------------------------------------------
  // buildTraversals
  // ---------------------------------------------------------------------------

  /** JavaScript's `Array.prototype.reverse`, as a value. */
  function Reverse(s: seq<int>): (r: seq<int>)
    ensures |r| == |s|
    ensures forall i | 0 <= i < |s| :: r[i] == s[|s| - 1 - i]
    decreases |s|
  {
    if s == [] then [] else [s[|s| - 1]] + Reverse(s[..|s| - 1])
  }

  datatype Traversals = Traversals(x: seq<int>, y: seq<int>)

  /**
   * One coordinate list: 0 .. size - 1, reversed when the component is +1,
   * so that the cells farthest along the vector come first.
   */
  function Traversal(size: nat, component: int): (r: seq<int>)
    ensures |r| == size
    ensures forall i | 0 <= i < size :: r[i] == if component == 1 then size - 1 - i else i
  {
    if component == 1 then Reverse(Range(size)) else Range(size)
  }

  /** `buildTraversals`. */
  function BuildTraversals(size: nat, vector: Pos): Traversals
  {
    Traversals(Traversal(size, vector.x), Traversal(size, vector.y))
  }

  // ---------------------------------------------------------------------------
  // findFarthestPosition
  // ---------------------------------------------------------------------------

  datatype Positions = Positions(farthest: Pos, next: Pos)

  /** How many steps along `vector` keep `p` on a board of side `size`, plus one. */
  function Gap(size: int, p: Pos, vector: Pos): int
  {
    if vector.x == 1 then size - p.x
    else if vector.x == -1 then p.x + 1
    else if vector.y == 1 then size - p.y
    else p.y + 1
  }

  /** `p` lies strictly beyond `cell` on the ray from `cell` along `vector`. */
  predicate Ahead(cell: Pos, p: Pos, vector: Pos)
  {
    if vector.x == 1 then p.y == cell.y && p.x > cell.x
    else if vector.x == -1 then p.y == cell.y && p.x < cell.x
    else if vector.y == 1 then p.x == cell.x && p.y > cell.y
    else p.x == cell.x && p.y < cell.y
  }

  /**
   * `findFarthestPosition`: the do/while loop that steps from `cell` along
   * `vector` while the next cell is on the board and empty.  `farthest` is the
   * last cell reached, `next` the first one refused.
   */
  function FindFarthestPosition(b: Board, cell: Pos, vector: Pos): (r: Positions)
    requires IsBoard(b) && IsUnit(vector) && WithinBounds(|b|, cell)
    ensures WithinBounds(|b|, r.farthest)
    decreases Gap(|b|, cell, vector)
  {
    var next := Add(cell, vector);
    if WithinBounds(|b|, next) && CellAvailable(b, next) then
      FindFarthestPosition(b, next, vector)
    else
      Positions(cell, next)
  }

  /**
   * What `findFarthestPosition` promises: `farthest` is on the board and is
   * the start cell or an empty cell ahead of it, every cell after the start up
   * to `farthest` is empty, and `next`, one step beyond `farthest`, is off the
   * board or occupied.
   */
  lemma {:induction false} FarthestPositionFacts(b: Board, cell: Pos, vector: Pos)
    requires IsBoard(b) && IsUnit(vector) && WithinBounds(|b|, cell)
    ensures var r := FindFarthestPosition(b, cell, vector);
            && r.next == Add(r.farthest, vector)
            && (!WithinBounds(|b|, r.next) || CellOccupied(b, r.next))
            && (r.farthest == cell || (Ahead(cell, r.farthest, vector) && CellAvailable(b, r.farthest)))
            && Ahead(cell, r.next, vector)
            && forall p | Ahead(cell, p, vector) && !Ahead(r.farthest, p, vector) ::
                 WithinBounds(|b|, p) && CellAvailable(b, p)
    decreases Gap(|b|, cell, vector)
  {
    var next := Add(cell, vector);
    if WithinBounds(|b|, next) && CellAvailable(b, next) {
      FarthestPositionFacts(b, next, vector);
    }
  }

  // ---------------------------------------------------------------------------
  // prepareTiles and moveTile
  // ---------------------------------------------------------------------------

  /** One tile of `prepareTiles`: clear `mergedFrom`, then `savePosition`. */
  function PrepareTile(c: Option<Tile>): Option<Tile>
  {
    match c
    case None => None
    case Some(tile) => Some(tile.(mergedFrom := false).SavePosition())
  }

  /** `prepareTiles`. */
  function PrepareTiles(b: Board): (r: Board)
    requires IsBoard(b)
    ensures IsBoard(r) && |r| == |b|
    ensures forall x, y | 0 <= x < |b| && 0 <= y < |b| :: r[x][y] == PrepareTile(b[x][y])
  {
    seq(|b|, x requires 0 <= x < |b| => seq(|b|, y requires 0 <= y < |b| => PrepareTile(b[x][y])))
  }

  /**
   * `moveTile`: clear the tile's old slot, then store it at `cell` with its
   * coordinates updated.
   */
  function MoveTile(b: Board, tile: Tile, cell: Pos): (r: Board)
    requires IsBoard(b) && WithinBounds(|b|, tile.Position()) && WithinBounds(|b|, cell)
    ensures IsBoard(r) && |r| == |b|
    ensures WellFormed(b) ==> WellFormed(r)
  {
    SetCell(SetCell(b, tile.Position(), None), cell, Some(tile.UpdatePosition(cell)))
  }

  /** After `moveTile` the tile sits at `cell`, its old slot is empty unless that is `cell`, and nothing else changes. */
  lemma MoveTileEffect(b: Board, tile: Tile, cell: Pos)
    requires IsBoard(b) && WithinBounds(|b|, tile.Position()) && WithinBounds(|b|, cell)
    ensures var r := MoveTile(b, tile, cell);
            && r[cell.x][cell.y] == Some(tile.UpdatePosition(cell))
            && (cell != tile.Position() ==> r[tile.x][tile.y].None?)
            && forall x, y | 0 <= x < |b| && 0 <= y < |b| && Pos(x, y) != cell && Pos(x, y) != tile.Position() ::
                 r[x][y] == b[x][y]
  {
  }

  // ---------------------------------------------------------------------------
  // move: the sweep over the traversal
  // ---------------------------------------------------------------------------

  /**
   * The state the traversal of `move` threads from cell to cell: the board,
   * `score`, `won`, the local `moved`, and (for the proofs only) the tiles
   * merges have produced so far, in order.
   */
  datatype Sweep = Sweep(board: Board, score: int, won: bool, moved: bool, merges: seq<Tile>)

  /** The tile a merge of two `value` tiles leaves at `position`. */
  function MergedTile(position: Pos, value: int): Tile
  {
    NewTile(position, value * 2).(mergedFrom := true)
  }

  /**
   * The tile at `cell` merges into the equal tile at `next`: the merged tile
   * takes `next`, the moving tile leaves its old slot (before its
   * coordinates change), and the score grows by the merged value.
   */
  function MergeStep(s: Sweep, cell: Pos, tile: Tile, next: Pos): (r: Sweep)
    requires WellFormed(s.board) && WithinBounds(|s.board|, tile.Position()) && WithinBounds(|s.board|, next)
    ensures WellFormed(r.board) && |r.board| == |s.board|
  {
    var merged := MergedTile(next, tile.value);
    var board := RemoveTile(InsertTile(s.board, merged), tile);
    var moving := tile.UpdatePosition(next);
    Sweep(board, s.score + merged.value, s.won || merged.value == 2048,
          s.moved || !PositionsEqual(cell, moving.Position()), s.merges + [merged])
  }

  /** The tile at `cell` slides to `farthest` (possibly where it already is). */
  function SlideStep(s: Sweep, cell: Pos, tile: Tile, farthest: Pos): (r: Sweep)
    requires WellFormed(s.board) && WithinBounds(|s.board|, tile.Position()) && WithinBounds(|s.board|, farthest)
    ensures WellFormed(r.board) && |r.board| == |s.board|
  {
    var board := MoveTile(s.board, tile, farthest);
    var moving := tile.UpdatePosition(farthest);
    Sweep(board, s.score, s.won, s.moved || !PositionsEqual(cell, moving.Position()), s.merges)
  }

  /** The body of the inner `forEach` of `move`, for one cell. */
  function Resolve(s: Sweep, cell: Pos, vector: Pos): (r: Sweep)
    requires WellFormed(s.board) && IsUnit(vector)
    ensures WellFormed(r.board) && |r.board| == |s.board|
  {
    match CellContent(s.board, cell)
    case None => s
    case Some(tile) =>
      var positions := FindFarthestPosition(s.board, cell, vector);
      var next := CellContent(s.board, positions.next);
      if next.Some? && next.value.value == tile.value && !next.value.mergedFrom then
        MergeStep(s, cell, tile, positions.next)
      else
        SlideStep(s, cell, tile, positions.farthest)
  }

  /** `Resolve` applied to `cells` in order. */
  function SweepCells(s: Sweep, cells: seq<Pos>, vector: Pos): (r: Sweep)
    requires WellFormed(s.board) && IsUnit(vector)
    ensures WellFormed(r.board) && |r.board| == |s.board|
    decreases |cells|
  {
    if cells == [] then s
    else Resolve(SweepCells(s, cells[..|cells| - 1], vector), cells[|cells| - 1], vector)
  }

  /** Resolving one more cell after a run of cells. */
  lemma SweepSnoc(s: Sweep, cells: seq<Pos>, cell: Pos, vector: Pos)
    requires WellFormed(s.board) && IsUnit(vector)
    ensures SweepCells(s, cells + [cell], vector) == Resolve(SweepCells(s, cells, vector), cell, vector)
  {
    assert (cells + [cell])[..|cells|] == cells;
  }

  lemma TraversalContains(size: nat, component: int, k: int)
    ensures k in Traversal(size, component) <==> 0 <= k < size
  {
    var t := Traversal(size, component);
    if component == 1 && 0 <= k < size {
      assert t[size - 1 - k] == k;
    } else if component != 1 {
      RangeContains(size, k);
    }
  }

  /** The cells `move` visits, in the order it visits them. */
  function TraversalOrder(size: nat, vector: Pos): seq<Pos>
  {
    var t := BuildTraversals(size, vector);
    Order(t.x, t.y)
  }

  /** What the traversal of `move` leaves behind, before any spawn. */
  function Resolution(b: Board, score: int, won: bool, direction: Direction): (r: Sweep)
    requires WellFormed(b)
    ensures WellFormed(r.board) && |r.board| == |b|
  {
    var vector := Vector(direction);
    var start := PrepareTiles(b);
    PrepareKeepsWellFormed(b);
    SweepCells(Sweep(start, score, won, false, []), TraversalOrder(|b|, vector), vector)
  }

  lemma PrepareKeepsWellFormed(b: Board)
    requires WellFormed(b)
    ensures WellFormed(PrepareTiles(b))
  {
  }

  // ---------------------------------------------------------------------------
  // Spawning and end of game
  // ---------------------------------------------------------------------------

  /** A stand-in for one `Math.random() < 0.9 ? 2 : 4` draw. */
  predicate SpawnValue(value: int)
  {
    value == 2 || value == 4
  }

  /** `addRandomTile`: one new tile of `value` on a cell chosen by `pick`. */
  function AddRandomTile(b: Board, pick: nat -> nat, value: int): (r: Board)
    requires WellFormed(b) && ValidChooser(pick)
    ensures WellFormed(r) && |r| == |b|
  {
    if CellsAvailable(b) then
      InsertTile(b, NewTile(RandomAvailableCell(b, pick).value, value))
    else b
  }

  /** The tile at column `x`, row `y` and its neighbour along `getVector(direction)` are equal. */
  predicate MatchAt(b: Board, x: int, y: int, direction: int)
    requires IsBoard(b) && 0 <= x < |b| && 0 <= y < |b| && 0 <= direction < 4
  {
    var vector := GetVector(direction).value;
    var other := CellContent(b, Pos(x + vector.x, y + vector.y));
    b[x][y].Some? && other.Some? && other.value.value == b[x][y].value.value
  }

  /** `tileMatchesAvailable`: some tile has an equal orthogonal neighbour. */
  predicate TileMatchesAvailable(b: Board)
    requires IsBoard(b)
  {
    exists x, y, direction | 0 <= x < |b| && 0 <= y < |b| && 0 <= direction < 4 ::
      MatchAt(b, x, y, direction)
  }

  /** `movesAvailable`. */
  predicate MovesAvailable(b: Board)
    requires IsBoard(b)
  {
    CellsAvailable(b) || TileMatchesAvailable(b)
  }

  // ---------------------------------------------------------------------------
  // The game: move, setup
  // ---------------------------------------------------------------------------

  datatype GameState = GameState(board: Board, score: int, over: bool, won: bool)

  /** A move in which some tile ends in a different cell. */
  predicate Effective(g: GameState, direction: Direction)
    requires WellFormed(g.board)
  {
    !(g.over || g.won) && Resolution(g.board, g.score, g.won, direction).moved
  }

  /**
   * `move`: nothing once the game is over or won; otherwise resolve the
   * traversal, and if a tile moved, spawn a tile and recompute `over`.
   */
  function Move(g: GameState, direction: Direction, pick: nat -> nat, value: int): (r: GameState)
    requires WellFormed(g.board) && ValidChooser(pick)
    ensures WellFormed(r.board) && |r.board| == |g.board|
  {
    if g.over || g.won then g
    else
      var s := Resolution(g.board, g.score, g.won, direction);
      if s.moved then
        var board := AddRandomTile(s.board, pick, value);
        GameState(board, s.score, g.over || !MovesAvailable(board), s.won)
      else
        GameState(s.board, s.score, g.over, s.won)
  }

  /** `addStartTiles`: one `addRandomTile` per entry of `values`. */
  function AddStartTiles(b: Board, pick: nat -> nat, values: seq<int>): (r: Board)
    requires WellFormed(b) && ValidChooser(pick)
    ensures WellFormed(r) && |r| == |b|
    decreases |values|
  {
    if values == [] then b
    else AddRandomTile(AddStartTiles(b, pick, values[..|values| - 1]), pick, values[|values| - 1])
  }

  /** `setup`: a fresh grid with the start tiles, score 0, both flags down. */
  function Setup(size: nat, pick: nat -> nat, values: seq<int>): (r: GameState)
    requires ValidChooser(pick)
    ensures WellFormed(r.board) && |r.board| == size
  {
    GameState(AddStartTiles(EmptyBoard(size), pick, values), 0, false, false)
  }
}
