/**
 * Every tile of a game is a power of two, 2 or more: the start tiles and
 * the spawns are 2 or 4, and a merge doubles a value.
 */
module PowerLaws {
  import opened Options
  import opened Tiles
  import opened Boards
  import opened Rules
  import opened SweepLaws
  import opened GameLaws

  /** `2` raised to `k`. */
  function Pow2(k: nat): (r: int)
    ensures r >= 1
  {
    if k == 0 then 1 else 2 * Pow2(k - 1)
  }

  /** `v` is 2, or an even number above 2 whose half is a power of two. */
  predicate PowerOfTwo(v: int)
    decreases v
  {
    v == 2 || (v > 2 && v % 2 == 0 && PowerOfTwo(v / 2))
  }

  /** The exponent of a power of two: `PowerOfTwo(v)` holds exactly for the values `2^k` with `k >= 1`. */
  function Exponent(v: int): (k: nat)
    requires PowerOfTwo(v)
    ensures k >= 1 && Pow2(k) == v
    decreases v
  {
    if v == 2 then 1 else Exponent(v / 2) + 1
  }

  lemma {:induction false} Pow2IsPowerOfTwo(k: nat)
    requires k >= 1
    ensures PowerOfTwo(Pow2(k))
  {
    if k > 1 {
      Pow2IsPowerOfTwo(k - 1);
      assert Pow2(k) / 2 == Pow2(k - 1);
    }
  }

  /** Doubling keeps a power of two a power of two. */
  lemma DoublePower(v: int)
    requires PowerOfTwo(v)
    ensures PowerOfTwo(2 * v) && v >= 2
  {
    assert (2 * v) / 2 == v;
  }

  /** Every tile on the board is a power of two. */
  ghost predicate PowersOfTwo(b: Board)
    requires IsBoard(b)
  {
    forall x, y | 0 <= x < |b| && 0 <= y < |b| && b[x][y].Some? :: PowerOfTwo(b[x][y].value.value)
  }

  lemma PowersArePositive(b: Board)
    requires IsBoard(b) && PowersOfTwo(b)
    ensures Positive(b)
  {
    forall x, y | 0 <= x < |b| && 0 <= y < |b| && b[x][y].Some?
      ensures b[x][y].value.value > 0
    {
      DoublePower(b[x][y].value.value);
    }
  }

  lemma SpawnValuesArePowers(b: Board)
    requires IsBoard(b) && SpawnValues(b)
    ensures PowersOfTwo(b)
  {
    assert PowerOfTwo(4);
  }

  // ---------------------------------------------------------------------------
  // One cell, one sweep
  // ---------------------------------------------------------------------------

  lemma MergeStepPowers(s: Sweep, cell: Pos, tile: Tile, next: Pos)
    requires WellFormed(s.board) && WithinBounds(|s.board|, cell) && WithinBounds(|s.board|, next)
    requires tile.Position() == cell && next != cell
    requires PowersOfTwo(s.board) && PowerOfTwo(tile.value)
    ensures PowersOfTwo(MergeStep(s, cell, tile, next).board)
  {
    var r := MergeStep(s, cell, tile, next);
    MergeStepEffects(s, cell, tile, next);
    DoublePower(tile.value);
    forall x, y | 0 <= x < |s.board| && 0 <= y < |s.board| && r.board[x][y].Some?
      ensures PowerOfTwo(r.board[x][y].value.value)
    {
      if Pos(x, y) != next && Pos(x, y) != cell {
        assert r.board[x][y] == s.board[x][y];
      }
    }
  }

  lemma SlideStepPowers(s: Sweep, cell: Pos, tile: Tile, farthest: Pos)
    requires WellFormed(s.board) && WithinBounds(|s.board|, cell) && WithinBounds(|s.board|, farthest)
    requires tile.Position() == cell
    requires PowersOfTwo(s.board) && PowerOfTwo(tile.value)
    ensures PowersOfTwo(SlideStep(s, cell, tile, farthest).board)
  {
    var r := SlideStep(s, cell, tile, farthest);
    SlideStepEffects(s, cell, tile, farthest);
    forall x, y | 0 <= x < |s.board| && 0 <= y < |s.board| && r.board[x][y].Some?
      ensures PowerOfTwo(r.board[x][y].value.value)
    {
      if Pos(x, y) != farthest && Pos(x, y) != cell {
        assert r.board[x][y] == s.board[x][y];
      }
    }
  }

  lemma ResolvePowers(s: Sweep, cell: Pos, vector: Pos)
    requires WellFormed(s.board) && IsUnit(vector) && PowersOfTwo(s.board)
    ensures PowersOfTwo(Resolve(s, cell, vector).board)
  {
    var b: Board := s.board;
    if CellContent(b, cell).Some? {
      var tile := b[cell.x][cell.y].value;
      var positions := FindFarthestPosition(b, cell, vector);
      if MergesAt(b, cell, vector) {
        ResolveMerge(s, cell, vector);
        MergeStepPowers(s, cell, tile, positions.next);
      } else {
        ResolveSlide(s, cell, vector);
        SlideStepPowers(s, cell, tile, positions.farthest);
      }
    }
  }

  lemma {:induction false} SweepPowers(s: Sweep, cells: seq<Pos>, vector: Pos)
    requires WellFormed(s.board) && IsUnit(vector) && PowersOfTwo(s.board)
    ensures PowersOfTwo(SweepCells(s, cells, vector).board)
    decreases |cells|
  {
    if cells != [] {
      SweepPowers(s, cells[..|cells| - 1], vector);
      ResolvePowers(SweepCells(s, cells[..|cells| - 1], vector), cells[|cells| - 1], vector);
    }
  }

  /** The traversal of a move, before its spawn, keeps every tile a power of two. */
  lemma ResolutionPowers(b: Board, score: int, won: bool, direction: Direction)
    requires WellFormed(b) && PowersOfTwo(b)
    ensures PowersOfTwo(Resolution(b, score, won, direction).board)
  {
    var p := PrepareTiles(b);
    PrepareKeepsWellFormed(b);
    PreparePreserves(b);
    assert PowersOfTwo(p);
    SweepPowers(Sweep(p, score, won, false, []), TraversalOrder(|b|, Vector(direction)), Vector(direction));
  }

  lemma SpawnKeepsPowers(b: Board, pick: nat -> nat, value: int)
    requires WellFormed(b) && ValidChooser(pick) && PowersOfTwo(b) && SpawnValue(value)
    ensures PowersOfTwo(AddRandomTile(b, pick, value))
  {
    AddRandomTileEffect(b, pick, value);
    var r: Board := AddRandomTile(b, pick, value);
    assert PowerOfTwo(4);
    if !Full(b) {
      var c := RandomAvailableCell(b, pick).value;
      forall x, y | 0 <= x < |b| && 0 <= y < |b| && r[x][y].Some?
        ensures PowerOfTwo(r[x][y].value.value)
      {
        if Pos(x, y) != c {
          assert r[x][y] == b[x][y];
        }
      }
    }
  }

  // ---------------------------------------------------------------------------
  // Whole games
  // ---------------------------------------------------------------------------

  /** `setup` places only powers of two. */
  lemma SetupPowers(size: nat, pick: nat -> nat, values: seq<int>)
    requires ValidChooser(pick) && |values| == 2 && forall v <- values :: SpawnValue(v)
    ensures PowersOfTwo(Setup(size, pick, values).board)
  {
    SetupFacts(size, pick, values);
    SpawnValuesArePowers(Setup(size, pick, values).board);
  }

  /** Every move keeps every tile a power of two. */
  lemma MovePowers(g: GameState, direction: Direction, pick: nat -> nat, value: int)
    requires WellFormed(g.board) && ValidChooser(pick) && PowersOfTwo(g.board) && SpawnValue(value)
    ensures PowersOfTwo(Move(g, direction, pick, value).board)
  {
    if !(g.over || g.won) {
      var s := Resolution(g.board, g.score, g.won, direction);
      ResolutionPowers(g.board, g.score, g.won, direction);
      if s.moved {
        SpawnKeepsPowers(s.board, pick, value);
      }
    }
  }
}
