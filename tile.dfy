/**
 * Positions, direction vectors and the `Tile` record of app/main.js.
 *
 * The source's tiles are mutable objects; here a tile is a value.  Where the
 * source stores a tile object in the grid and then moves it with
 * `updatePosition`, the model stores the already-moved value.
 */
module Tiles {
  import opened Options

  /** An `{ x, y }` object: a cell coordinate or a direction vector. */
  datatype Pos = Pos(x: int, y: int)

  /** The cell one step from `p` along `vector`. */
  function Add(p: Pos, vector: Pos): Pos
  {
    Pos(p.x + vector.x, p.y + vector.y)
  }

  /**
   * A tile: its coordinates, its value, the position it held before the
   * current move (kept for the renderer only), and whether a merge produced it
   * in the current move (the source's `mergedFrom`, non-null exactly then).
   */
  datatype Tile = Tile(x: int, y: int, value: int, previousPosition: Option<Pos>, mergedFrom: bool)
  {
    function Position(): Pos
    {
      Pos(x, y)
    }

    /** `savePosition`: remember the current coordinates. */
    function SavePosition(): (r: Tile)
      ensures r.previousPosition == Some(Position())
      ensures r.Position() == Position() && r.value == value && r.mergedFrom == mergedFrom
    {
      this.(previousPosition := Some(Pos(x, y)))
    }

    /** `updatePosition`: move the tile's own coordinates to `position`. */
    function UpdatePosition(position: Pos): (r: Tile)
      ensures r.Position() == position
      ensures r.value == value && r.previousPosition == previousPosition && r.mergedFrom == mergedFrom
    {
      this.(x := position.x, y := position.y)
    }
  }

  /**
   * The `Tile` constructor: a fresh tile at `position`.  The source writes
   * `value || 2`, so a missing (zero) value becomes 2.
   */
  function NewTile(position: Pos, value: int): (r: Tile)
    ensures r.Position() == position && r.value == (if value == 0 then 2 else value)
    ensures r.previousPosition.None? && !r.mergedFrom
  {
    Tile(position.x, position.y, if value == 0 then 2 else value, None, false)
  }
}
