/**
 * Properties of the traversal of `move` (before the spawn): what a merge
 * does, that the values on the board are conserved, how `score` and `won`
 * follow from the merges, that a merged tile takes part in no second merge
 * of the same move, and that a move in which no tile changes cell changes
 * nothing.
 */
module SweepLaws {
  import opened Options
  import opened Tiles
  import opened Boards
  import opened Rules
  import opened TraversalLaws

  /** The sum of the values of `merges`. */
  function MergeSum(merges: seq<Tile>): int
    decreases |merges|
  {
    if merges == [] then 0 else MergeSum(merges[..|merges| - 1]) + merges[|merges| - 1].value
  }

  lemma MergeSumSnoc(merges: seq<Tile>, m: Tile)
    ensures MergeSum(merges + [m]) == MergeSum(merges) + m.value
  {
    assert (merges + [m])[..|merges|] == merges;
  }

  /** Some tile in `merges`, from index `from` on, has the value 2048. */
  predicate Reaches2048(merges: seq<Tile>, from: int)
  {
    exists k | from <= k < |merges| && 0 <= k :: merges[k].value == 2048
  }

  // ---------------------------------------------------------------------------
  // The two branches of one cell
  // ---------------------------------------------------------------------------

  /** What the merge branch does to the board and to the sweep's fields. */
  lemma MergeStepEffects(s: Sweep, cell: Pos, tile: Tile, next: Pos)
    requires WellFormed(s.board) && WithinBounds(|s.board|, cell) && WithinBounds(|s.board|, next)
    requires tile.Position() == cell && next != cell
    ensures var r := MergeStep(s, cell, tile, next);
            var merged := MergedTile(next, tile.value);
            && r.board[next.x][next.y] == Some(merged)
            && r.board[cell.x][cell.y] == None
            && (forall x, y | 0 <= x < |s.board| && 0 <= y < |s.board| && Pos(x, y) != next && Pos(x, y) != cell ::
                  r.board[x][y] == s.board[x][y])
            && r.score == s.score + merged.value
            && r.won == (s.won || merged.value == 2048)
            && r.merges == s.merges + [merged]
            && r.moved
  {
  }

  /** What the slide branch does to the board and to the sweep's fields. */
  lemma SlideStepEffects(s: Sweep, cell: Pos, tile: Tile, farthest: Pos)
    requires WellFormed(s.board) && WithinBounds(|s.board|, cell) && WithinBounds(|s.board|, farthest)
    requires tile.Position() == cell
    ensures var r := SlideStep(s, cell, tile, farthest);
            && r.board[farthest.x][farthest.y] == Some(tile.UpdatePosition(farthest))
            && (farthest != cell ==> r.board[cell.x][cell.y] == None)
            && (forall x, y | 0 <= x < |s.board| && 0 <= y < |s.board| && Pos(x, y) != farthest && Pos(x, y) != cell ::
                  r.board[x][y] == s.board[x][y])
            && r.score == s.score && r.won == s.won && r.merges == s.merges
            && (r.moved <==> s.moved || farthest != cell)
  {
  }

  // ---------------------------------------------------------------------------
  // The merge rule
  // ---------------------------------------------------------------------------

  /** The guard of the merge branch: the tile at `cell` meets an equal, unmerged tile at `next`. */
  predicate MergesAt(b: Board, cell: Pos, vector: Pos)
    requires IsBoard(b) && IsUnit(vector) && WithinBounds(|b|, cell)
  {
    var tile := CellContent(b, cell);
    var next := CellContent(b, FindFarthestPosition(b, cell, vector).next);
    tile.Some? && next.Some? && next.value.value == tile.value.value && !next.value.mergedFrom
  }

  /** On a cell where the guard holds, `Resolve` takes the merge branch. */
  lemma ResolveMerge(s: Sweep, cell: Pos, vector: Pos)
    requires WellFormed(s.board) && IsUnit(vector) && WithinBounds(|s.board|, cell)
    requires MergesAt(s.board, cell, vector)
    ensures var tile := s.board[cell.x][cell.y].value;
            var next := FindFarthestPosition(s.board, cell, vector).next;
            && tile.Position() == cell && WithinBounds(|s.board|, next) && next != cell
            && s.board[next.x][next.y].Some? && s.board[next.x][next.y].value.value == tile.value
            && !s.board[next.x][next.y].value.mergedFrom
            && Resolve(s, cell, vector) == MergeStep(s, cell, tile, next)
  {
    FarthestPositionFacts(s.board, cell, vector);
  }

  /** On an occupied cell where the guard fails, `Resolve` takes the slide branch. */
  lemma ResolveSlide(s: Sweep, cell: Pos, vector: Pos)
    requires WellFormed(s.board) && IsUnit(vector) && WithinBounds(|s.board|, cell)
    requires s.board[cell.x][cell.y].Some? && !MergesAt(s.board, cell, vector)
    ensures var tile := s.board[cell.x][cell.y].value;
            var farthest := FindFarthestPosition(s.board, cell, vector).farthest;
            && tile.Position() == cell && WithinBounds(|s.board|, farthest)
            && (farthest == cell || s.board[farthest.x][farthest.y].None?)
            && Resolve(s, cell, vector) == SlideStep(s, cell, tile, farthest)
  {
    FarthestPositionFacts(s.board, cell, vector);
  }

  /** The merge branch of `Resolve`, field by field. */
  lemma MergeBranch(s: Sweep, cell: Pos, vector: Pos)
    requires WellFormed(s.board) && IsUnit(vector) && WithinBounds(|s.board|, cell)
    requires MergesAt(s.board, cell, vector)
    ensures var r := Resolve(s, cell, vector);
            var next := FindFarthestPosition(s.board, cell, vector).next;
            var value := s.board[cell.x][cell.y].value.value;
            && WithinBounds(|s.board|, next)
            && r.board[next.x][next.y].Some?
            && r.board[next.x][next.y].value.Position() == next
            && r.board[next.x][next.y].value.mergedFrom
            && r.board[next.x][next.y].value.value == (if value == 0 then 2 else 2 * value)
            && r.board[cell.x][cell.y].None?
            && r.merges == s.merges + [r.board[next.x][next.y].value]
            && r.score == s.score + r.board[next.x][next.y].value.value
  {
    var b: Board := s.board;
    ResolveMerge(s, cell, vector);
    MergeStepEffects(s, cell, b[cell.x][cell.y].value, FindFarthestPosition(b, cell, vector).next);
  }

  /** Off the merge branch, `Resolve` records no merge and leaves `score` alone. */
  lemma NoMergeBranch(s: Sweep, cell: Pos, vector: Pos)
    requires WellFormed(s.board) && IsUnit(vector) && WithinBounds(|s.board|, cell)
    requires !MergesAt(s.board, cell, vector)
    ensures var r := Resolve(s, cell, vector);
            r.merges == s.merges && r.score == s.score
  {
    if s.board[cell.x][cell.y].Some? {
      ResolveSlide(s, cell, vector);
    }
  }

  /**
   * The merge rule: a cell's tile merges exactly when the guard holds.  The
   * slot at `next` then holds a new, flagged tile of double the value (2 for
   * a zero value, as `value || 2` gives), the moving tile's slot is emptied,
   * and `score` grows by the new value.  Otherwise no merge is recorded and
   * `score` stays.
   */
  lemma MergeRule(s: Sweep, cell: Pos, vector: Pos)
    requires WellFormed(s.board) && IsUnit(vector) && WithinBounds(|s.board|, cell)
    ensures var r := Resolve(s, cell, vector);
            |r.merges| == |s.merges| + 1 <==> MergesAt(s.board, cell, vector)
    ensures var r := Resolve(s, cell, vector);
            var next := FindFarthestPosition(s.board, cell, vector).next;
            MergesAt(s.board, cell, vector) ==>
              var value := s.board[cell.x][cell.y].value.value;
              && WithinBounds(|s.board|, next)
              && r.board[next.x][next.y].Some?
              && r.board[next.x][next.y].value.Position() == next
              && r.board[next.x][next.y].value.mergedFrom
              && r.board[next.x][next.y].value.value == (if value == 0 then 2 else 2 * value)
              && r.board[cell.x][cell.y].None?
              && r.merges == s.merges + [r.board[next.x][next.y].value]
              && r.score == s.score + r.board[next.x][next.y].value.value
    ensures var r := Resolve(s, cell, vector);
            !MergesAt(s.board, cell, vector) ==> r.merges == s.merges && r.score == s.score
  {
    if MergesAt(s.board, cell, vector) {
      MergeBranch(s, cell, vector);
    } else {
      NoMergeBranch(s, cell, vector);
    }
  }

  // ---------------------------------------------------------------------------
  // Conservation and accounting
  // ---------------------------------------------------------------------------

  lemma MergeStepAccounts(s: Sweep, cell: Pos, tile: Tile, next: Pos)
    requires WellFormed(s.board) && WithinBounds(|s.board|, cell) && WithinBounds(|s.board|, next)
    requires tile.Position() == cell && next != cell && Positive(s.board)
    requires s.board[cell.x][cell.y] == Some(tile)
    requires s.board[next.x][next.y].Some? && s.board[next.x][next.y].value.value == tile.value
    ensures var r := MergeStep(s, cell, tile, next);
            var merged := MergedTile(next, tile.value);
            && Positive(r.board) && Total(r.board) == Total(s.board)
            && TileCount(r.board) == TileCount(s.board) - 1
            && tile.value > 0 && merged.value == 2 * tile.value
            && r.score == s.score + merged.value && r.merges == s.merges + [merged]
            && r.won == (s.won || merged.value == 2048)
  {
    var b: Board := s.board;
    assert b[cell.x][cell.y].value.value > 0;
    var merged := MergedTile(next, tile.value);
    var inserted: Board := SetCell(b, next, Some(merged));
    SetCellTotals(b, next, Some(merged));
    SetCellPositive(b, next, Some(merged));
    assert inserted[cell.x][cell.y] == Some(tile);
    SetCellTotals(inserted, cell, None);
    SetCellPositive(inserted, cell, None);
  }

  lemma SlideStepAccounts(s: Sweep, cell: Pos, tile: Tile, farthest: Pos)
    requires WellFormed(s.board) && WithinBounds(|s.board|, cell) && WithinBounds(|s.board|, farthest)
    requires tile.Position() == cell && Positive(s.board)
    requires s.board[cell.x][cell.y] == Some(tile)
    requires farthest == cell || s.board[farthest.x][farthest.y].None?
    ensures var r := SlideStep(s, cell, tile, farthest);
            && Positive(r.board) && Total(r.board) == Total(s.board)
            && TileCount(r.board) == TileCount(s.board)
            && r.score == s.score && r.won == s.won && r.merges == s.merges
  {
    var b: Board := s.board;
    assert b[cell.x][cell.y].value.value > 0;
    var cleared: Board := SetCell(b, cell, None);
    SetCellTotals(b, cell, None);
    SetCellPositive(b, cell, None);
    assert cleared[farthest.x][farthest.y].None?;
    SetCellTotals(cleared, farthest, Some(tile.UpdatePosition(farthest)));
    SetCellPositive(cleared, farthest, Some(tile.UpdatePosition(farthest)));
  }

  /** One cell: the values on the board are conserved, and `score` and `won` follow the merges. */
  lemma ResolveAccounts(s: Sweep, cell: Pos, vector: Pos)
    requires WellFormed(s.board) && IsUnit(vector) && Positive(s.board)
    ensures var r := Resolve(s, cell, vector);
            && Positive(r.board) && Total(r.board) == Total(s.board) && r.score >= s.score
            && s.merges <= r.merges
            && TileCount(r.board) == TileCount(s.board) - (|r.merges| - |s.merges|)
            && r.score == s.score + MergeSum(r.merges) - MergeSum(s.merges)
            && (r.won <==> s.won || Reaches2048(r.merges, |s.merges|))
  {
    var b: Board := s.board;
    if CellContent(b, cell).Some? {
      var tile := b[cell.x][cell.y].value;
      var positions := FindFarthestPosition(b, cell, vector);
      if MergesAt(b, cell, vector) {
        ResolveMerge(s, cell, vector);
        MergeStepAccounts(s, cell, tile, positions.next);
        var merged := MergedTile(positions.next, tile.value);
        MergeSumSnoc(s.merges, merged);
        assert (s.merges + [merged])[|s.merges|] == merged;
      } else {
        ResolveSlide(s, cell, vector);
        SlideStepAccounts(s, cell, tile, positions.farthest);
      }
    }
  }

  /** The whole sweep: the values on the board are conserved, and `score` and `won` follow the merges. */
  lemma {:induction false} SweepAccounts(s: Sweep, cells: seq<Pos>, vector: Pos)
    requires WellFormed(s.board) && IsUnit(vector) && Positive(s.board)
    ensures var r := SweepCells(s, cells, vector);
            && Positive(r.board) && Total(r.board) == Total(s.board) && r.score >= s.score
            && s.merges <= r.merges
            && TileCount(r.board) == TileCount(s.board) - (|r.merges| - |s.merges|)
            && r.score == s.score + MergeSum(r.merges) - MergeSum(s.merges)
            && (r.won <==> s.won || Reaches2048(r.merges, |s.merges|))
    decreases |cells|
  {
    if cells != [] {
      var init := cells[..|cells| - 1];
      SweepAccounts(s, init, vector);
      var mid := SweepCells(s, init, vector);
      var r := SweepCells(s, cells, vector);
      ResolveAccounts(mid, cells[|cells| - 1], vector);
      if Reaches2048(mid.merges, |s.merges|) {
        var k :| |s.merges| <= k < |mid.merges| && mid.merges[k].value == 2048;
        assert r.merges[k] == mid.merges[k];
      }
    }
  }

  // ---------------------------------------------------------------------------
  // No chain merge
  // ---------------------------------------------------------------------------

  /** The cells the merges of `merges` produced their tiles in. */
  function Targets(merges: seq<Tile>): (r: seq<Pos>)
    ensures |r| == |merges| && forall k | 0 <= k < |merges| :: r[k] == merges[k].Position()
  {
    seq(|merges|, k requires 0 <= k < |merges| => merges[k].Position())
  }

  /** No cell appears twice in `ts`. */
  predicate Distinct(ts: seq<Pos>)
  {
    forall i, j | 0 <= i < j < |ts| :: ts[i] != ts[j]
  }

  /**
   * What holds between the cells of a sweep: every merge so far produced a
   * flagged tile in its own, already visited cell, where it still is; no two
   * merges share a cell; and every flagged tile on the board is one of them.
   */
  ghost predicate MergeInvariant(s: Sweep, done: seq<Pos>)
  {
    var ts := Targets(s.merges);
    && IsBoard(s.board)
    && Distinct(ts)
    && (forall k | 0 <= k < |ts| ::
          && ts[k] in done && s.merges[k].mergedFrom
          && WithinBounds(|s.board|, ts[k]) && s.board[ts[k].x][ts[k].y] == Some(s.merges[k]))
    && (forall x, y | 0 <= x < |s.board| && 0 <= y < |s.board| ::
          s.board[x][y].Some? && s.board[x][y].value.mergedFrom ==> Pos(x, y) in ts)
  }

  lemma MergeStepKeepsInvariant(s: Sweep, done: seq<Pos>, cell: Pos, tile: Tile, next: Pos)
    requires WellFormed(s.board) && WithinBounds(|s.board|, cell) && WithinBounds(|s.board|, next)
    requires tile.Position() == cell && next != cell && cell !in done && next in done
    requires s.board[next.x][next.y].Some? && !s.board[next.x][next.y].value.mergedFrom
    requires MergeInvariant(s, done)
    ensures MergeInvariant(MergeStep(s, cell, tile, next), done + [cell])
  {
    var b: Board := s.board;
    var r := MergeStep(s, cell, tile, next);
    var ts := Targets(s.merges);
    var merged := MergedTile(next, tile.value);
    MergeStepEffects(s, cell, tile, next);
    forall k | 0 <= k < |ts|
      ensures ts[k] != next
    {
      assert b[ts[k].x][ts[k].y] == Some(s.merges[k]);
    }
    var rts := Targets(r.merges);
    assert rts == ts + [next];
    forall k | 0 <= k < |rts|
      ensures rts[k] in done + [cell] && r.merges[k].mergedFrom
      ensures WithinBounds(|b|, rts[k]) && r.board[rts[k].x][rts[k].y] == Some(r.merges[k])
    {
      if k < |ts| {
        assert rts[k] == ts[k] && r.merges[k] == s.merges[k];
        assert ts[k] != cell;
      }
    }
    forall x, y | 0 <= x < |b| && 0 <= y < |b| && r.board[x][y].Some? && r.board[x][y].value.mergedFrom
      ensures Pos(x, y) in rts
    {
      if Pos(x, y) != next {
        assert Pos(x, y) != cell;
        assert Pos(x, y) in ts;
      }
    }
  }

  lemma SlideStepKeepsInvariant(s: Sweep, done: seq<Pos>, cell: Pos, tile: Tile, farthest: Pos)
    requires WellFormed(s.board) && WithinBounds(|s.board|, cell) && WithinBounds(|s.board|, farthest)
    requires tile.Position() == cell && cell !in done && s.board[cell.x][cell.y] == Some(tile)
    requires farthest == cell || s.board[farthest.x][farthest.y].None?
    requires MergeInvariant(s, done)
    ensures MergeInvariant(SlideStep(s, cell, tile, farthest), done + [cell])
  {
    var b: Board := s.board;
    var r := SlideStep(s, cell, tile, farthest);
    var ts := Targets(s.merges);
    SlideStepEffects(s, cell, tile, farthest);
    forall k | 0 <= k < |ts|
      ensures ts[k] != cell
    {
    }
    assert !tile.mergedFrom;
    forall k | 0 <= k < |ts|
      ensures r.board[ts[k].x][ts[k].y] == Some(r.merges[k])
    {
      assert ts[k] != cell && ts[k] != farthest;
    }
    forall x, y | 0 <= x < |b| && 0 <= y < |b| && r.board[x][y].Some? && r.board[x][y].value.mergedFrom
      ensures Pos(x, y) in ts
    {
      assert Pos(x, y) != farthest;
      if farthest != cell {
        assert Pos(x, y) != cell;
      }
    }
  }

  lemma ResolveKeepsInvariant(s: Sweep, done: seq<Pos>, cell: Pos, vector: Pos)
    requires WellFormed(s.board) && IsUnit(vector)
    requires MergeInvariant(s, done) && GoodStep(done, cell, |s.board|, vector)
    ensures MergeInvariant(Resolve(s, cell, vector), done + [cell])
  {
    var b: Board := s.board;
    if CellContent(b, cell).Some? {
      var tile := b[cell.x][cell.y].value;
      var positions := FindFarthestPosition(b, cell, vector);
      FarthestPositionFacts(b, cell, vector);
      if MergesAt(b, cell, vector) {
        ResolveMerge(s, cell, vector);
        assert positions.next in done;
        MergeStepKeepsInvariant(s, done, cell, tile, positions.next);
      } else {
        ResolveSlide(s, cell, vector);
        SlideStepKeepsInvariant(s, done, cell, tile, positions.farthest);
      }
    } else {
      var ts := Targets(s.merges);
      assert forall k | 0 <= k < |ts| :: ts[k] in done + [cell];
    }
  }

  lemma {:induction false} SweepKeepsInvariant(s: Sweep, cells: seq<Pos>, vector: Pos)
    requires WellFormed(s.board) && IsUnit(vector)
    requires MergeInvariant(s, []) && GoodOrder(cells, |s.board|, vector)
    ensures MergeInvariant(SweepCells(s, cells, vector), cells)
    decreases |cells|
  {
    if cells != [] {
      var n := |cells|;
      var init := cells[..n - 1];
      assert GoodOrder(init, |s.board|, vector) by {
        forall k | 0 <= k < |init|
          ensures GoodStep(init[..k], init[k], |s.board|, vector)
        {
          assert init[..k] == cells[..k];
        }
      }
      SweepKeepsInvariant(s, init, vector);
      assert GoodStep(init, cells[n - 1], |s.board|, vector);
      ResolveKeepsInvariant(SweepCells(s, init, vector), init, cells[n - 1], vector);
      assert init + [cells[n - 1]] == cells;
    }
  }

  /**
   * No chain merge: in one move no two merges produce their tile in the same
   * cell, and every tile a merge produced is still in its cell, unchanged,
   * when the traversal ends; so it took part in no later merge, neither as
   * the moving tile nor as the one merged into.
   */
  lemma NoChainMerge(b: Board, score: int, won: bool, direction: Direction)
    requires WellFormed(b)
    ensures var r := Resolution(b, score, won, direction);
            var ts := Targets(r.merges);
            && Distinct(ts)
            && forall k | 0 <= k < |ts| ::
                 WithinBounds(|b|, ts[k]) && r.board[ts[k].x][ts[k].y] == Some(r.merges[k])
  {
    var vector := Vector(direction);
    var start := Sweep(PrepareTiles(b), score, won, false, []);
    PrepareKeepsWellFormed(b);
    TraversalOrderGood(|b|, vector);
    SweepKeepsInvariant(start, TraversalOrder(|b|, vector), vector);
  }

  // ---------------------------------------------------------------------------
  // A whole move, before its spawn
  // ---------------------------------------------------------------------------

  lemma {:induction false} RowSumPointwise(c1: seq<Option<Tile>>, c2: seq<Option<Tile>>, f: Option<Tile> -> int)
    requires |c1| == |c2| && forall j | 0 <= j < |c1| :: f(c1[j]) == f(c2[j])
    ensures RowSum(c1, f) == RowSum(c2, f)
    decreases |c1|
  {
    if c1 != [] {
      RowSumPointwise(c1[..|c1| - 1], c2[..|c2| - 1], f);
    }
  }

  lemma {:induction false} PrepareSums(b: Board, p: Board)
    requires |p| == |b| && forall x | 0 <= x < |b| :: |p[x]| == |b[x]|
    requires forall x, y | 0 <= x < |b| && 0 <= y < |b[x]| :: p[x][y] == PrepareTile(b[x][y])
    ensures BoardSum(p, TileValue) == BoardSum(b, TileValue)
    ensures BoardSum(p, Occupancy) == BoardSum(b, Occupancy)
    decreases |b|
  {
    if b != [] {
      var n := |b|;
      PrepareSums(b[..n - 1], p[..n - 1]);
      RowSumPointwise(p[n - 1], b[n - 1], TileValue);
      RowSumPointwise(p[n - 1], b[n - 1], Occupancy);
    }
  }

  /** `prepareTiles` keeps every tile in its slot with its value. */
  lemma PreparePreserves(b: Board)
    requires WellFormed(b)
    ensures Total(PrepareTiles(b)) == Total(b) && TileCount(PrepareTiles(b)) == TileCount(b)
    ensures Positive(b) ==> Positive(PrepareTiles(b))
    ensures forall x, y | 0 <= x < |b| && 0 <= y < |b| ::
              && (PrepareTiles(b)[x][y].Some? <==> b[x][y].Some?)
              && (b[x][y].Some? ==> PrepareTiles(b)[x][y].value.value == b[x][y].value.value
                                    && !PrepareTiles(b)[x][y].value.mergedFrom)
  {
    PrepareSums(b, PrepareTiles(b));
  }

  /**
   * A move, before its spawn: every tile keeps its own coordinates (the
   * board stays well formed), the sum of the values on the board is
   * unchanged, each merge removes one tile, `score` grows by the sum of the
   * merged values and never falls, and `won` is set exactly when some merge
   * produces 2048.
   */
  lemma ResolutionAccounts(b: Board, score: int, won: bool, direction: Direction)
    requires WellFormed(b) && Positive(b)
    ensures var r := Resolution(b, score, won, direction);
            && WellFormed(r.board) && |r.board| == |b| && Positive(r.board)
            && Total(r.board) == Total(b)
            && TileCount(r.board) == TileCount(b) - |r.merges|
            && r.score == score + MergeSum(r.merges) && r.score >= score
            && (r.won <==> won || Reaches2048(r.merges, 0))
  {
    var vector := Vector(direction);
    var start := Sweep(PrepareTiles(b), score, won, false, []);
    PrepareKeepsWellFormed(b);
    PreparePreserves(b);
    SweepAccounts(start, TraversalOrder(|b|, vector), vector);
  }

  // ---------------------------------------------------------------------------
  // Ineffective moves
  // ---------------------------------------------------------------------------

  lemma MoveTileInPlace(b: Board, tile: Tile)
    requires WellFormed(b) && WithinBounds(|b|, tile.Position())
    requires b[tile.x][tile.y] == Some(tile)
    ensures MoveTile(b, tile, tile.Position()) == b
  {
    var r := MoveTile(b, tile, tile.Position());
    assert tile.UpdatePosition(tile.Position()) == tile;
    BoardExt(r, b);
  }

  /** A cell whose tile stays in its cell changes nothing and records no merge. */
  lemma ResolveStill(s: Sweep, cell: Pos, vector: Pos)
    requires WellFormed(s.board) && IsUnit(vector) && !s.moved
    ensures !Resolve(s, cell, vector).moved ==> Resolve(s, cell, vector) == s
  {
    var b: Board := s.board;
    if CellContent(b, cell).Some? {
      var tile := b[cell.x][cell.y].value;
      var positions := FindFarthestPosition(b, cell, vector);
      if MergesAt(b, cell, vector) {
        ResolveMerge(s, cell, vector);
        MergeStepEffects(s, cell, tile, positions.next);
      } else {
        ResolveSlide(s, cell, vector);
        if positions.farthest == cell {
          MoveTileInPlace(b, tile);
        }
      }
    }
  }

  lemma {:induction false} SweepStill(s: Sweep, cells: seq<Pos>, vector: Pos)
    requires WellFormed(s.board) && IsUnit(vector) && !s.moved
    ensures !SweepCells(s, cells, vector).moved ==> SweepCells(s, cells, vector) == s
    decreases |cells|
  {
    if cells != [] {
      var init := cells[..|cells| - 1];
      SweepStill(s, init, vector);
      var mid := SweepCells(s, init, vector);
      if !SweepCells(s, cells, vector).moved {
        assert !mid.moved;
        ResolveStill(mid, cells[|cells| - 1], vector);
      }
    }
  }

  /**
   * When no tile changes cell, the traversal merged nothing, left every
   * tile where it was with its value (only the animation metadata that
   * `prepareTiles` writes differs), and left `score` and `won` unchanged.
   */
  lemma IneffectiveResolution(b: Board, score: int, won: bool, direction: Direction)
    requires WellFormed(b)
    ensures var r := Resolution(b, score, won, direction);
            !r.moved ==>
              && r.merges == [] && r.score == score && r.won == won
              && r.board == PrepareTiles(b)
  {
    var vector := Vector(direction);
    PrepareKeepsWellFormed(b);
    SweepStill(Sweep(PrepareTiles(b), score, won, false, []), TraversalOrder(|b|, vector), vector);
  }
}
