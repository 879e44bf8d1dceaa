/**
 * A worked move on a 4 by 4 board whose first row reads 2, 2, 4, empty
 * (columns 0 to 3) and whose other rows are empty.  Moving left merges the
 * two 2s into a 4 in column 0 and slides the 4 up against it: the row then
 * reads 4, 4, empty, empty.  The new 4 does not merge again with the
 * sliding 4, since a merged tile takes part in no second merge.
 */
module Scenario {
  import opened Options
  import opened Tiles
  import opened Boards
  import opened Rules
  import opened SweepLaws

  /** `Sweep` over cells that are all empty changes nothing. */
  lemma {:induction false} SweepEmpty(s: Sweep, cells: seq<Pos>, vector: Pos)
    requires WellFormed(s.board) && IsUnit(vector)
    requires forall p <- cells :: CellContent(s.board, p).None?
    ensures SweepCells(s, cells, vector) == s
    decreases |cells|
  {
    if cells != [] {
      SweepEmpty(s, cells[..|cells| - 1], vector);
    }
  }

  /** Sweeping two runs of cells in turn. */
  lemma {:induction false} SweepAppend(s: Sweep, a: seq<Pos>, b: seq<Pos>, vector: Pos)
    requires WellFormed(s.board) && IsUnit(vector)
    ensures SweepCells(s, a + b, vector) == SweepCells(SweepCells(s, a, vector), b, vector)
    decreases |b|
  {
    if b == [] {
      assert a + b == a;
    } else {
      var init := b[..|b| - 1];
      assert (a + b)[..|a + b| - 1] == a + init;
      assert (a + b)[|a + b| - 1] == b[|b| - 1];
      SweepAppend(s, a, init, vector);
    }
  }

  /** The order `move` visits the cells in when moving left on a 4 by 4 board. */
  lemma LeftOrder()
    ensures TraversalOrder(4, Vector(Left)) ==
            Column(0, [0, 1, 2, 3]) + Column(1, [0, 1, 2, 3]) + Column(2, [0, 1, 2, 3]) + Column(3, [0, 1, 2, 3])
  {
    var r := Traversal(4, -1);
    assert r == [0, 1, 2, 3];
    var xs: seq<int> := [0, 1, 2, 3];
    assert xs[..3] == [0, 1, 2] && xs[..3][..2] == [0, 1] && xs[..3][..2][..1] == [0] && xs[..3][..2][..1][..0] == [];
    assert Order([0], r) == Column(0, r);
    assert Order([0, 1], r) == Order([0], r) + Column(1, r);
    assert Order([0, 1, 2], r) == Order([0, 1], r) + Column(2, r);
    assert Order(xs, r) == Order([0, 1, 2], r) + Column(3, r);
  }

  lemma SweepSingle(s: Sweep, cell: Pos, vector: Pos)
    requires WellFormed(s.board) && IsUnit(vector)
    ensures SweepCells(s, [cell], vector) == Resolve(s, cell, vector)
  {
    assert [cell][..0] == [];
  }

  lemma ColumnSplit(x: int)
    ensures Column(x, [0, 1, 2, 3]) == [Pos(x, 0)] + [Pos(x, 1), Pos(x, 2), Pos(x, 3)]
  {
  }

  /** Column `x` resolves its first-row cell, then three empty cells. */
  lemma FirstRowOnly(s: Sweep, r: Sweep, x: int, vector: Pos)
    requires WellFormed(s.board) && IsUnit(vector) && 0 <= x < 4
    requires r == Resolve(s, Pos(x, 0), vector) && |r.board| == 4
    requires r.board[x][1].None? && r.board[x][2].None? && r.board[x][3].None?
    ensures SweepCells(s, Column(x, [0, 1, 2, 3]), vector) == r
  {
    var rest := [Pos(x, 1), Pos(x, 2), Pos(x, 3)];
    ColumnSplit(x);
    SweepSingle(s, Pos(x, 0), vector);
    SweepAppend(s, [Pos(x, 0)], rest, vector);
    assert forall p <- rest :: CellContent(r.board, p).None?;
    SweepEmpty(r, rest, vector);
  }

  /** Moving left from column 0: the tile is against the edge. */
  lemma EdgeFarthest(b: Board, v: Pos)
    requires IsBoard(b) && |b| == 4 && v == Pos(-1, 0)
    ensures FindFarthestPosition(b, Pos(0, 0), v) == Positions(Pos(0, 0), Pos(-1, 0))
  {
  }

  /** Moving left from column 1 with column 0 occupied. */
  lemma BlockedFarthest(b: Board, v: Pos)
    requires IsBoard(b) && |b| == 4 && v == Pos(-1, 0) && b[0][0].Some?
    ensures FindFarthestPosition(b, Pos(1, 0), v) == Positions(Pos(1, 0), Pos(0, 0))
  {
  }

  /** Moving left from column 2 over an empty column 1 up to an occupied column 0. */
  lemma OneStepFarthest(b: Board, v: Pos)
    requires IsBoard(b) && |b| == 4 && v == Pos(-1, 0) && b[1][0].None? && b[0][0].Some?
    ensures FindFarthestPosition(b, Pos(2, 0), v) == Positions(Pos(1, 0), Pos(0, 0))
  {
    assert Add(Pos(2, 0), v) == Pos(1, 0);
    assert CellAvailable(b, Pos(1, 0));
    assert FindFarthestPosition(b, Pos(2, 0), v) == FindFarthestPosition(b, Pos(1, 0), v);
    BlockedFarthest(b, v);
  }

  /** A tile against the left edge stays where it is. */
  lemma AgainstEdge(s: Sweep, v: Pos)
    requires WellFormed(s.board) && |s.board| == 4 && !s.moved && s.board[0][0].Some? && v == Pos(-1, 0)
    ensures Resolve(s, Pos(0, 0), v) == s
  {
    var b := s.board;
    EdgeFarthest(b, v);
    assert !MergesAt(b, Pos(0, 0), v);
    ResolveSlide(s, Pos(0, 0), v);
    MoveTileInPlace(b, b[0][0].value);
  }

  /** The tile in column 1 meets an equal, unmerged tile in column 0 and merges into it. */
  lemma MergeIntoFirst(s: Sweep, v: Pos)
    requires WellFormed(s.board) && |s.board| == 4 && v == Pos(-1, 0)
    requires s.board[1][0].Some? && s.board[0][0].Some?
    requires s.board[0][0].value.value == s.board[1][0].value.value && !s.board[0][0].value.mergedFrom
    ensures Resolve(s, Pos(1, 0), v) == MergeStep(s, Pos(1, 0), s.board[1][0].value, Pos(0, 0))
  {
    BlockedFarthest(s.board, v);
    assert MergesAt(s.board, Pos(1, 0), v);
    ResolveMerge(s, Pos(1, 0), v);
  }

  /** The tile in column 2 slides over the empty column 1 and stops against a merged tile. */
  lemma SlideAgainstMerged(s: Sweep, v: Pos)
    requires WellFormed(s.board) && |s.board| == 4 && v == Pos(-1, 0)
    requires s.board[2][0].Some? && s.board[1][0].None? && s.board[0][0].Some? && s.board[0][0].value.mergedFrom
    ensures Resolve(s, Pos(2, 0), v) == SlideStep(s, Pos(2, 0), s.board[2][0].value, Pos(1, 0))
  {
    OneStepFarthest(s.board, v);
    assert !MergesAt(s.board, Pos(2, 0), v);
    ResolveSlide(s, Pos(2, 0), v);
  }

  /** The board of the example, before the move: 2, 2, 4, empty in the first row. */
  ghost predicate Example(b: Board)
  {
    && WellFormed(b) && |b| == 4
    && b[0][0].Some? && b[0][0].value.value == 2
    && b[1][0].Some? && b[1][0].value.value == 2
    && b[2][0].Some? && b[2][0].value.value == 4
    && b[3][0].None?
    && forall x, y | 0 <= x < 4 && 1 <= y < 4 :: b[x][y].None?
  }

  /** The example after `prepareTiles`, before the sweep. */
  ghost predicate Prepared(s: Sweep)
  {
    && WellFormed(s.board) && |s.board| == 4 && !s.moved && s.merges == []
    && s.board[0][0].Some? && s.board[0][0].value.value == 2 && !s.board[0][0].value.mergedFrom
    && s.board[1][0].Some? && s.board[1][0].value.value == 2 && !s.board[1][0].value.mergedFrom
    && s.board[2][0].Some? && s.board[2][0].value.value == 4 && !s.board[2][0].value.mergedFrom
    && s.board[3][0].None?
    && forall x, y | 0 <= x < 4 && 1 <= y < 4 :: s.board[x][y].None?
  }

  /** After column 1: the two 2s have merged into a 4 in column 0. */
  ghost predicate AfterMerge(s: Sweep, score: int, won: bool)
  {
    && WellFormed(s.board) && |s.board| == 4
    && s.board[0][0].Some? && s.board[0][0].value.value == 4 && s.board[0][0].value.mergedFrom
    && s.board[1][0].None?
    && s.board[2][0].Some? && s.board[2][0].value.value == 4 && !s.board[2][0].value.mergedFrom
    && s.board[3][0].None?
    && (forall x, y | 0 <= x < 4 && 1 <= y < 4 :: s.board[x][y].None?)
    && s.score == score + 4 && s.won == won && s.moved && |s.merges| == 1
  }

  /** After column 2: the row reads 4, 4, empty, empty. */
  ghost predicate AfterSlide(s: Sweep, score: int, won: bool)
  {
    && WellFormed(s.board) && |s.board| == 4
    && s.board[0][0].Some? && s.board[0][0].value.value == 4 && s.board[0][0].value.mergedFrom
    && s.board[1][0].Some? && s.board[1][0].value.value == 4 && !s.board[1][0].value.mergedFrom
    && s.board[2][0].None? && s.board[3][0].None?
    && (forall x, y | 0 <= x < 4 && 1 <= y < 4 :: s.board[x][y].None?)
    && s.score == score + 4 && s.won == won && s.moved && |s.merges| == 1
  }

  lemma PrepareExample(b: Board, score: int, won: bool)
    requires Example(b)
    ensures Prepared(Sweep(PrepareTiles(b), score, won, false, []))
  {
    PreparePreserves(b);
    PrepareKeepsWellFormed(b);
  }

  lemma SweepColumn0(s: Sweep, v: Pos)
    requires WellFormed(s.board) && |s.board| == 4 && !s.moved && s.board[0][0].Some?
    requires s.board[0][1].None? && s.board[0][2].None? && s.board[0][3].None?
    requires v == Pos(-1, 0)
    ensures SweepCells(s, Column(0, [0, 1, 2, 3]), v) == s
  {
    AgainstEdge(s, v);
    FirstRowOnly(s, s, 0, v);
  }

  /** Column 1 of the prepared example merges its 2 into column 0. */
  lemma MergeColumn1(s: Sweep)
    requires Prepared(s)
    ensures AfterMerge(MergeStep(s, Pos(1, 0), s.board[1][0].value, Pos(0, 0)), s.score, s.won)
  {
    MergeStepEffects(s, Pos(1, 0), s.board[1][0].value, Pos(0, 0));
  }

  lemma SweepColumn1(s: Sweep, v: Pos)
    requires WellFormed(s.board) && |s.board| == 4 && v == Pos(-1, 0)
    requires s.board[1][0].Some? && s.board[0][0].Some?
    requires s.board[0][0].value.value == s.board[1][0].value.value && !s.board[0][0].value.mergedFrom
    requires s.board[1][1].None? && s.board[1][2].None? && s.board[1][3].None?
    ensures SweepCells(s, Column(1, [0, 1, 2, 3]), v) == MergeStep(s, Pos(1, 0), s.board[1][0].value, Pos(0, 0))
  {
    MergeIntoFirst(s, v);
    var tile := s.board[1][0].value;
    MergeStepEffects(s, Pos(1, 0), tile, Pos(0, 0));
    FirstRowOnly(s, MergeStep(s, Pos(1, 0), tile, Pos(0, 0)), 1, v);
  }

  /** Column 2 slides its 4 into column 1. */
  lemma SlideColumn2(s: Sweep, score: int, won: bool)
    requires AfterMerge(s, score, won)
    ensures AfterSlide(SlideStep(s, Pos(2, 0), s.board[2][0].value, Pos(1, 0)), score, won)
  {
    SlideStepEffects(s, Pos(2, 0), s.board[2][0].value, Pos(1, 0));
  }

  lemma SweepColumn2(s: Sweep, v: Pos)
    requires WellFormed(s.board) && |s.board| == 4 && v == Pos(-1, 0)
    requires s.board[2][0].Some? && s.board[1][0].None? && s.board[0][0].Some? && s.board[0][0].value.mergedFrom
    requires s.board[2][1].None? && s.board[2][2].None? && s.board[2][3].None?
    ensures SweepCells(s, Column(2, [0, 1, 2, 3]), v) == SlideStep(s, Pos(2, 0), s.board[2][0].value, Pos(1, 0))
  {
    SlideAgainstMerged(s, v);
    var tile := s.board[2][0].value;
    SlideStepEffects(s, Pos(2, 0), tile, Pos(1, 0));
    FirstRowOnly(s, SlideStep(s, Pos(2, 0), tile, Pos(1, 0)), 2, v);
  }

  lemma SweepColumn3(s: Sweep, score: int, won: bool, v: Pos)
    requires AfterSlide(s, score, won) && v == Pos(-1, 0)
    ensures SweepCells(s, Column(3, [0, 1, 2, 3]), v) == s
  {
    FirstRowOnly(s, s, 3, v);
  }

  /**
   * Moving the example left: the first row becomes 4 (merged), 4, empty,
   * empty, the other rows stay empty, one merge of value 4 is recorded and
   * scored, and `won` is left as it was.
   */
  lemma LeftScenario(b: Board, score: int, won: bool)
    requires Example(b)
    ensures AfterSlide(Resolution(b, score, won, Left), score, won)
  {
    var v := Vector(Left);
    assert v == Pos(-1, 0);
    PrepareExample(b, score, won);
    var s0 := Sweep(PrepareTiles(b), score, won, false, []);
    var c0, c1, c2, c3 := Column(0, [0, 1, 2, 3]), Column(1, [0, 1, 2, 3]), Column(2, [0, 1, 2, 3]), Column(3, [0, 1, 2, 3]);
    LeftOrder();
    SweepAppend(s0, c0 + c1 + c2, c3, v);
    SweepAppend(s0, c0 + c1, c2, v);
    SweepAppend(s0, c0, c1, v);
    SweepColumn0(s0, v);
    SweepColumn1(s0, v);
    MergeColumn1(s0);
    var r1 := SweepCells(s0, c1, v);
    SweepColumn2(r1, v);
    SlideColumn2(r1, score, won);
    SweepColumn3(SweepCells(r1, c2, v), score, won, v);
  }
}
