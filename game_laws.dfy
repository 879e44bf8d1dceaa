/**
 * Properties of whole moves and of the end of the game: when moves are
 * available, that a game with none is really stuck, that a finished game
 * ignores moves, what a spawn adds, what `setup` produces, and what an
 * ineffective move leaves alone.
 */
module GameLaws {
  import opened Options
  import opened Tiles
  import opened Boards
  import opened Rules
  import opened TraversalLaws
  import opened SweepLaws

  // ---------------------------------------------------------------------------
  // Available moves
  // ---------------------------------------------------------------------------

  /** `p` and `q` are orthogonal neighbours. */
  predicate Adjacent(p: Pos, q: Pos)
  {
    (p.x == q.x && (p.y - q.y == 1 || q.y - p.y == 1)) ||
    (p.y == q.y && (p.x - q.x == 1 || q.x - p.x == 1))
  }

  /** The tiles at `p` and `q` are both present and of equal value. */
  predicate SameValue(b: Board, p: Pos, q: Pos)
    requires IsBoard(b) && WithinBounds(|b|, p) && WithinBounds(|b|, q)
  {
    b[p.x][p.y].Some? && b[q.x][q.y].Some? && b[p.x][p.y].value.value == b[q.x][q.y].value.value
  }

  /** Two neighbouring tiles of the board have the same value. */
  ghost predicate EqualNeighbours(b: Board)
    requires IsBoard(b)
  {
    exists p, q | WithinBounds(|b|, p) && WithinBounds(|b|, q) && Adjacent(p, q) :: SameValue(b, p, q)
  }

  /** Every slot of the board holds a tile. */
  predicate Full(b: Board)
    requires IsBoard(b)
  {
    forall x, y | 0 <= x < |b| && 0 <= y < |b| :: b[x][y].Some?
  }

  lemma MatchIsEqualNeighbours(b: Board, x: int, y: int, d: int)
    requires IsBoard(b) && 0 <= x < |b| && 0 <= y < |b| && 0 <= d < 4 && MatchAt(b, x, y, d)
    ensures EqualNeighbours(b)
  {
    var v := GetVector(d).value;
    var q := Pos(x + v.x, y + v.y);
    assert WithinBounds(|b|, q) && Adjacent(Pos(x, y), q) && SameValue(b, Pos(x, y), q);
  }

  lemma EqualNeighboursMatch(b: Board, p: Pos, q: Pos)
    requires IsBoard(b) && WithinBounds(|b|, p) && WithinBounds(|b|, q) && Adjacent(p, q)
    requires SameValue(b, p, q)
    ensures TileMatchesAvailable(b)
  {
    var d := if q.y == p.y - 1 then 0 else if q.x == p.x + 1 then 1 else if q.y == p.y + 1 then 2 else 3;
    assert GetVector(d).value == Pos(q.x - p.x, q.y - p.y);
    assert MatchAt(b, p.x, p.y, d);
  }

  /** `tileMatchesAvailable` holds exactly when two neighbouring tiles are equal. */
  lemma TileMatchesExact(b: Board)
    requires IsBoard(b)
    ensures TileMatchesAvailable(b) <==> EqualNeighbours(b)
  {
    if TileMatchesAvailable(b) {
      var x, y, d :| 0 <= x < |b| && 0 <= y < |b| && 0 <= d < 4 && MatchAt(b, x, y, d);
      MatchIsEqualNeighbours(b, x, y, d);
    }
    if EqualNeighbours(b) {
      var p, q :| WithinBounds(|b|, p) && WithinBounds(|b|, q) && Adjacent(p, q) && SameValue(b, p, q);
      EqualNeighboursMatch(b, p, q);
    }
  }

  /** `movesAvailable` holds exactly when a slot is empty or two neighbouring tiles are equal. */
  lemma MovesAvailableExact(b: Board)
    requires IsBoard(b)
    ensures MovesAvailable(b) <==> !Full(b) || EqualNeighbours(b)
  {
    CellsAvailableExact(b);
    TileMatchesExact(b);
  }

  /** On a full board without equal neighbours, no cell's tile moves or merges. */
  lemma StuckResolve(s: Sweep, cell: Pos, vector: Pos)
    requires WellFormed(s.board) && IsUnit(vector)
    requires Full(s.board) && !EqualNeighbours(s.board)
    ensures Resolve(s, cell, vector) == s
  {
    var b: Board := s.board;
    if CellContent(b, cell).Some? {
      var tile := b[cell.x][cell.y].value;
      var positions := FindFarthestPosition(b, cell, vector);
      FarthestPositionFacts(b, cell, vector);
      assert positions.farthest == cell;
      assert Adjacent(cell, positions.next);
      if WithinBounds(|b|, positions.next) {
        assert !SameValue(b, cell, positions.next);
      }
      ResolveSlide(s, cell, vector);
      MoveTileInPlace(b, tile);
    }
  }

  lemma {:induction false} StuckSweep(s: Sweep, cells: seq<Pos>, vector: Pos)
    requires WellFormed(s.board) && IsUnit(vector)
    requires Full(s.board) && !EqualNeighbours(s.board)
    ensures SweepCells(s, cells, vector) == s
    decreases |cells|
  {
    if cells != [] {
      StuckSweep(s, cells[..|cells| - 1], vector);
      StuckResolve(s, cells[|cells| - 1], vector);
    }
  }

  /** The number of tiles reaches the number of slots exactly on a full board. */
  lemma TileCountFull(b: Board)
    requires IsBoard(b)
    ensures 0 <= TileCount(b) <= |b| * |b|
    ensures TileCount(b) == |b| * |b| <==> Full(b)
  {
    BoardCount(b, |b|);
    BoardCountFull(b, |b|);
  }

  /** `Resolve` only ever appends to the list of merges. */
  lemma ResolveMergesGrow(s: Sweep, cell: Pos, vector: Pos)
    requires WellFormed(s.board) && IsUnit(vector)
    ensures |Resolve(s, cell, vector).merges| >= |s.merges|
  {
    if WithinBounds(|s.board|, cell) {
      if MergesAt(s.board, cell, vector) {
        MergeBranch(s, cell, vector);
      } else {
        NoMergeBranch(s, cell, vector);
      }
    }
  }

  /** On a full board, a cell whose tile merges with nothing stays put and changes nothing. */
  lemma FullResolveStill(s: Sweep, cell: Pos, vector: Pos)
    requires WellFormed(s.board) && IsUnit(vector) && Full(s.board) && !s.moved
    ensures |Resolve(s, cell, vector).merges| == |s.merges| ==> Resolve(s, cell, vector) == s
  {
    var b: Board := s.board;
    ResolveStill(s, cell, vector);
    if WithinBounds(|b|, cell) {
      if MergesAt(b, cell, vector) {
        MergeBranch(s, cell, vector);
      } else {
        var tile := b[cell.x][cell.y].value;
        ResolveSlide(s, cell, vector);
        var farthest := FindFarthestPosition(b, cell, vector).farthest;
        assert farthest == cell;
        SlideStepEffects(s, cell, tile, farthest);
      }
    }
  }

  /** On a full board, a sweep that merges nothing moves no tile and changes nothing. */
  lemma {:induction false} FullSweepStill(s: Sweep, cells: seq<Pos>, vector: Pos)
    requires WellFormed(s.board) && IsUnit(vector) && Full(s.board) && !s.moved
    ensures var r := SweepCells(s, cells, vector);
            && |r.merges| >= |s.merges|
            && (|r.merges| == |s.merges| ==> r == s)
    decreases |cells|
  {
    if cells != [] {
      var init := cells[..|cells| - 1];
      FullSweepStill(s, init, vector);
      var mid := SweepCells(s, init, vector);
      ResolveMergesGrow(mid, cells[|cells| - 1], vector);
      if |mid.merges| == |s.merges| {
        FullResolveStill(s, cells[|cells| - 1], vector);
      }
    }
  }

  /**
   * An effective move always leaves a free slot for the spawn: on a full
   * board a move can only take effect through a merge, and each merge frees
   * a slot.
   */
  lemma EffectiveSpawns(g: GameState, direction: Direction)
    requires WellFormed(g.board) && Positive(g.board) && Effective(g, direction)
    ensures !Full(Resolution(g.board, g.score, g.won, direction).board)
  {
    var b := g.board;
    var s := Resolution(b, g.score, g.won, direction);
    ResolutionAccounts(b, g.score, g.won, direction);
    TileCountFull(b);
    TileCountFull(s.board);
    if Full(b) {
      FullMoveMerges(b, g.score, g.won, direction);
    }
  }

  /** On a full board, a move in which some tile changes cell merges at least once. */
  lemma FullMoveMerges(b: Board, score: int, won: bool, direction: Direction)
    requires WellFormed(b) && Full(b) && Resolution(b, score, won, direction).moved
    ensures |Resolution(b, score, won, direction).merges| >= 1
  {
    var vector := Vector(direction);
    var p := PrepareTiles(b);
    PrepareKeepsWellFormed(b);
    PreparePreserves(b);
    assert Full(p);
    FullSweepStill(Sweep(p, score, won, false, []), TraversalOrder(|b|, vector), vector);
  }

  /**
   * `over` is sound: on a board where `movesAvailable` fails, no direction
   * moves any tile, so no move can be effective.
   */
  lemma NoMovesIsStuck(g: GameState, direction: Direction)
    requires WellFormed(g.board) && !MovesAvailable(g.board)
    ensures !Resolution(g.board, g.score, g.won, direction).moved
    ensures !Effective(g, direction)
  {
    var b := g.board;
    var p := PrepareTiles(b);
    MovesAvailableExact(b);
    PrepareKeepsWellFormed(b);
    PreparePreserves(b);
    assert Full(p);
    assert !EqualNeighbours(p) by {
      forall q1, q2 | WithinBounds(|b|, q1) && WithinBounds(|b|, q2) && Adjacent(q1, q2)
        ensures !SameValue(p, q1, q2)
      {
        assert !SameValue(b, q1, q2);
      }
    }
    StuckSweep(Sweep(p, g.score, g.won, false, []), TraversalOrder(|b|, Vector(direction)), Vector(direction));
  }

  // ---------------------------------------------------------------------------
  // Spawning and setup
  // ---------------------------------------------------------------------------

  /**
   * `addRandomTile`: on a board with an empty slot, one new, unmerged tile
   * of `value` (2 for a zero value) appears on the empty slot `pick`
   * chooses, and no other slot changes; on a full board nothing happens.
   */
  lemma AddRandomTileEffect(b: Board, pick: nat -> nat, value: int)
    requires WellFormed(b) && ValidChooser(pick)
    ensures Full(b) <==> !CellsAvailable(b)
    ensures Full(b) ==> AddRandomTile(b, pick, value) == b
    ensures CellsAvailable(b) ==>
              var r := AddRandomTile(b, pick, value);
              var c := RandomAvailableCell(b, pick).value;
              && WithinBounds(|b|, c) && b[c.x][c.y].None?
              && r[c.x][c.y].Some? && r[c.x][c.y].value.Position() == c
              && r[c.x][c.y].value.value == (if value == 0 then 2 else value)
              && !r[c.x][c.y].value.mergedFrom
              && (forall x, y | 0 <= x < |b| && 0 <= y < |b| && Pos(x, y) != c :: r[x][y] == b[x][y])
              && TileCount(r) == TileCount(b) + 1
              && Total(r) == Total(b) + r[c.x][c.y].value.value
  {
    CellsAvailableExact(b);
    if !Full(b) {
      var c := RandomAvailableCell(b, pick).value;
      SetCellTotals(b, c, Some(NewTile(c, value)));
    }
  }

  /** Every tile on the board has a value `addRandomTile` can give it, 2 or 4. */
  ghost predicate SpawnValues(b: Board)
    requires IsBoard(b)
  {
    forall x, y | 0 <= x < |b| && 0 <= y < |b| && b[x][y].Some? :: SpawnValue(b[x][y].value.value)
  }

  lemma SpawnKeepsValues(b: Board, pick: nat -> nat, value: int)
    requires WellFormed(b) && ValidChooser(pick) && SpawnValues(b) && SpawnValue(value)
    ensures SpawnValues(AddRandomTile(b, pick, value))
  {
    AddRandomTileEffect(b, pick, value);
    var r: Board := AddRandomTile(b, pick, value);
    if !Full(b) {
      var c := RandomAvailableCell(b, pick).value;
      forall x, y | 0 <= x < |b| && 0 <= y < |b| && r[x][y].Some?
        ensures SpawnValue(r[x][y].value.value)
      {
        if Pos(x, y) != c {
          assert r[x][y] == b[x][y];
        }
      }
    }
  }

  lemma SpawnKeepsPositive(b: Board, pick: nat -> nat, value: int)
    requires WellFormed(b) && ValidChooser(pick) && Positive(b) && value >= 0
    ensures Positive(AddRandomTile(b, pick, value))
  {
    CellsAvailableExact(b);
    if CellsAvailable(b) {
      var c := RandomAvailableCell(b, pick).value;
      SetCellPositive(b, c, Some(NewTile(c, value)));
    }
  }

  /** Two start tiles are two `addRandomTile` calls, in order. */
  lemma StartTilesTwo(b: Board, pick: nat -> nat, values: seq<int>)
    requires WellFormed(b) && ValidChooser(pick) && |values| == 2
    ensures AddStartTiles(b, pick, values) ==
            AddRandomTile(AddRandomTile(b, pick, values[0]), pick, values[1])
  {
    assert values[..1] == [values[0]] && [values[0]][..0] == [];
    assert AddStartTiles(b, pick, values[..1]) == AddRandomTile(b, pick, values[0]);
  }

  /** The first start tile fills the board only when the board has a single slot. */
  lemma FirstSpawn(size: nat, pick: nat -> nat, value: int)
    requires ValidChooser(pick) && size >= 1
    ensures var b1 := AddRandomTile(EmptyBoard(size), pick, value);
            TileCount(b1) == 1 && (Full(b1) <==> size == 1)
  {
    var b0 := EmptyBoard(size);
    var b1: Board := AddRandomTile(b0, pick, value);
    EmptyBoardHasNoTiles(size);
    assert !Full(b0) by {
      assert b0[0][0].None?;
    }
    AddRandomTileEffect(b0, pick, value);
    var c0 := RandomAvailableCell(b0, pick).value;
    if size == 1 {
      assert c0 == Pos(0, 0);
    } else {
      var other := Pos(if c0.x == 0 then 1 else 0, c0.y);
      assert b1[other.x][other.y].None?;
    }
  }

  /**
   * `setup`: score 0, neither over nor won, and a board of the requested
   * size holding two tiles of value 2 or 4 (fewer only on a board with
   * fewer than two slots).
   */
  lemma SetupFacts(size: nat, pick: nat -> nat, values: seq<int>)
    requires ValidChooser(pick) && |values| == 2 && forall v <- values :: SpawnValue(v)
    ensures var g := Setup(size, pick, values);
            && g.score == 0 && !g.over && !g.won
            && WellFormed(g.board) && |g.board| == size
            && TileCount(g.board) == (if size >= 2 then 2 else size)
            && SpawnValues(g.board)
  {
    var b0 := EmptyBoard(size);
    var b1 := AddRandomTile(b0, pick, values[0]);
    StartTilesTwo(b0, pick, values);
    EmptyBoardHasNoTiles(size);
    AddRandomTileEffect(b0, pick, values[0]);
    AddRandomTileEffect(b1, pick, values[1]);
    if size >= 1 {
      FirstSpawn(size, pick, values[0]);
    }
    SpawnKeepsValues(b0, pick, values[0]);
    SpawnKeepsValues(b1, pick, values[1]);
  }

  // ---------------------------------------------------------------------------
  // Moves
  // ---------------------------------------------------------------------------

  /** A game that is over or won ignores every move. */
  lemma FinishedGameIgnoresMoves(g: GameState, direction: Direction, pick: nat -> nat, value: int)
    requires WellFormed(g.board) && ValidChooser(pick) && (g.over || g.won)
    ensures Move(g, direction, pick, value) == g && !Effective(g, direction)
  {
  }

  /**
   * A move in which no tile changes cell merges nothing, spawns nothing and
   * leaves `score`, `over`, `won` and every tile's slot and value as they
   * were.
   */
  lemma IneffectiveMove(g: GameState, direction: Direction, pick: nat -> nat, value: int)
    requires WellFormed(g.board) && ValidChooser(pick) && !Effective(g, direction)
    ensures var r := Move(g, direction, pick, value);
            && r.score == g.score && r.over == g.over && r.won == g.won
            && TileCount(r.board) == TileCount(g.board) && Total(r.board) == Total(g.board)
            && forall x, y | 0 <= x < |g.board| && 0 <= y < |g.board| ::
                 && (r.board[x][y].Some? <==> g.board[x][y].Some?)
                 && (g.board[x][y].Some? ==> r.board[x][y].value.value == g.board[x][y].value.value)
  {
    if !(g.over || g.won) {
      IneffectiveResolution(g.board, g.score, g.won, direction);
      PreparePreserves(g.board);
    }
  }

  /**
   * An effective move: `score` grows by the merged values, `won` is set
   * exactly when a merge produced 2048, the values on the board are
   * conserved apart from the spawned tile, the move always leaves a free
   * slot, each merge removes a tile and the spawn adds one, and `over` is
   * recomputed on the board after the spawn.
   */
  lemma EffectiveMove(g: GameState, direction: Direction, pick: nat -> nat, value: int)
    requires WellFormed(g.board) && ValidChooser(pick) && Positive(g.board) && SpawnValue(value)
    requires Effective(g, direction)
    ensures var s := Resolution(g.board, g.score, g.won, direction);
            var r := Move(g, direction, pick, value);
            && r.score == g.score + MergeSum(s.merges) && r.score >= g.score
            && (r.won <==> Reaches2048(s.merges, 0))
            && r.over == !MovesAvailable(r.board)
            && Positive(r.board)
            && !Full(s.board)
            && Total(r.board) == Total(g.board) + value
            && TileCount(r.board) == TileCount(g.board) - |s.merges| + 1
  {
    var s := Resolution(g.board, g.score, g.won, direction);
    ResolutionAccounts(g.board, g.score, g.won, direction);
    EffectiveSpawns(g, direction);
    AddRandomTileEffect(s.board, pick, value);
    SpawnKeepsPositive(s.board, pick, value);
  }

  /** Every move keeps tile values positive and never lowers `score`. */
  lemma MoveMonotone(g: GameState, direction: Direction, pick: nat -> nat, value: int)
    requires WellFormed(g.board) && ValidChooser(pick) && Positive(g.board) && SpawnValue(value)
    ensures Positive(Move(g, direction, pick, value).board)
    ensures Move(g, direction, pick, value).score >= g.score
  {
    if Effective(g, direction) {
      EffectiveMove(g, direction, pick, value);
    } else if !(g.over || g.won) {
      IneffectiveResolution(g.board, g.score, g.won, direction);
      PreparePreserves(g.board);
    }
  }

  // ---------------------------------------------------------------------------
  // `over` in every reachable state
  // ---------------------------------------------------------------------------

  /** `over` is set exactly when no move is left. */
  predicate OverTracks(g: GameState)
    requires IsBoard(g.board)
  {
    g.over <==> !MovesAvailable(g.board)
  }

  /** `prepareTiles` changes no slot's occupancy or value, so it changes which moves are available not at all. */
  lemma PreparedMoves(b: Board)
    requires WellFormed(b)
    ensures MovesAvailable(PrepareTiles(b)) <==> MovesAvailable(b)
  {
    var p := PrepareTiles(b);
    PreparePreserves(b);
    MovesAvailableExact(b);
    MovesAvailableExact(p);
    assert Full(p) <==> Full(b);
    assert forall q1, q2 | WithinBounds(|b|, q1) && WithinBounds(|b|, q2) ::
             SameValue(p, q1, q2) <==> SameValue(b, q1, q2);
    assert EqualNeighbours(p) <==> EqualNeighbours(b);
  }

  /** Every move keeps `over` equal to "no move is available". */
  lemma MoveKeepsOverTracks(g: GameState, direction: Direction, pick: nat -> nat, value: int)
    requires WellFormed(g.board) && ValidChooser(pick) && OverTracks(g)
    ensures OverTracks(Move(g, direction, pick, value))
  {
    if !(g.over || g.won) {
      var s := Resolution(g.board, g.score, g.won, direction);
      if !s.moved {
        IneffectiveResolution(g.board, g.score, g.won, direction);
        PreparedMoves(g.board);
      }
    }
  }

  /** On a board of two or more slots a side, the game `setup` starts is not over and has a move. */
  lemma SetupOverTracks(size: nat, pick: nat -> nat, values: seq<int>)
    requires ValidChooser(pick) && |values| == 2 && forall v <- values :: SpawnValue(v)
    requires size >= 2
    ensures OverTracks(Setup(size, pick, values)) && MovesAvailable(Setup(size, pick, values).board)
  {
    var b := Setup(size, pick, values).board;
    SetupFacts(size, pick, values);
    TileCountFull(b);
    assert size * size >= 2 * size;
    MovesAvailableExact(b);
  }

  /** A single-slot board holding a tile has no move: it is full and has no neighbours. */
  lemma SingleSlotStuck(b: Board)
    requires IsBoard(b) && |b| == 1 && TileCount(b) == 1
    ensures !MovesAvailable(b)
  {
    TileCountFull(b);
    OneSlotNoNeighbours(b);
    MovesAvailableExact(b);
  }

  lemma OneSlotNoNeighbours(b: Board)
    requires IsBoard(b) && |b| == 1
    ensures !EqualNeighbours(b)
  {
    forall q1, q2 | WithinBounds(|b|, q1) && WithinBounds(|b|, q2) ensures !Adjacent(q1, q2) {
      assert q1 == Pos(0, 0) && q2 == Pos(0, 0);
    }
  }

  /**
   * On a single-slot board `setup` leaves a full board with no neighbours,
   * so no move exists, yet `over` is false: `setup` never asks
   * `movesAvailable`.
   */
  lemma SingleSlotSetup(size: nat, pick: nat -> nat, values: seq<int>)
    requires ValidChooser(pick) && |values| == 2 && forall v <- values :: SpawnValue(v)
    requires size == 1
    ensures var g := Setup(size, pick, values);
            !g.over && !MovesAvailable(g.board) && !OverTracks(g)
  {
    SetupFacts(size, pick, values);
    SingleSlotStuck(Setup(size, pick, values).board);
  }
}
