/**
 * Properties of `buildTraversals` and of the order in which `move` visits
 * the cells: each coordinate list is a permutation of 0 .. size - 1, and
 * every cell is visited after all the cells that lie ahead of it along the
 * direction of the move.
 */
module TraversalLaws {
  import opened Tiles
  import opened Boards
  import opened Rules

  lemma {:induction false} ReversePermutes(s: seq<int>)
    ensures multiset(Reverse(s)) == multiset(s)
    decreases |s|
  {
    if s != [] {
      var n := |s|;
      ReversePermutes(s[..n - 1]);
      assert s == s[..n - 1] + [s[n - 1]];
    }
  }

  /**
   * `buildTraversals` gives two permutations of 0 .. size - 1; each runs
   * upwards, except downwards when that component of the vector is +1.
   */
  lemma BuildTraversalsPermutation(size: nat, vector: Pos)
    ensures var t := BuildTraversals(size, vector);
            multiset(t.x) == multiset(Range(size)) && multiset(t.y) == multiset(Range(size))
    ensures var t := BuildTraversals(size, vector);
            forall i, j | 0 <= i < j < size ::
              (if vector.x == 1 then t.x[i] > t.x[j] else t.x[i] < t.x[j]) &&
              (if vector.y == 1 then t.y[i] > t.y[j] else t.y[i] < t.y[j])
  {
    ReversePermutes(Range(size));
  }

  /**
   * `c` is not in `prior`, and every board cell ahead of `c` along `vector`
   * is.
   */
  ghost predicate GoodStep(prior: seq<Pos>, c: Pos, size: int, vector: Pos)
  {
    && c !in prior
    && forall p | WithinBounds(size, p) && Ahead(c, p, vector) :: p in prior
  }

  /**
   * No cell is visited twice, and every cell comes after the board cells
   * ahead of it along `vector`.
   */
  ghost predicate GoodOrder(cells: seq<Pos>, size: int, vector: Pos)
  {
    forall k | 0 <= k < |cells| :: GoodStep(cells[..k], cells[k], size, vector)
  }

  lemma GoodAppend(a: seq<Pos>, b: seq<Pos>, size: int, vector: Pos)
    requires GoodOrder(a, size, vector)
    requires forall j | 0 <= j < |b| :: GoodStep(a + b[..j], b[j], size, vector)
    ensures GoodOrder(a + b, size, vector)
  {
    forall k | 0 <= k < |a + b|
      ensures GoodStep((a + b)[..k], (a + b)[k], size, vector)
    {
      if k < |a| {
        assert (a + b)[..k] == a[..k];
      } else {
        assert (a + b)[..k] == a + b[..k - |a|];
      }
    }
  }

  lemma ColumnContains(x: int, ys: seq<int>, p: Pos)
    ensures p in Column(x, ys) <==> p.x == x && p.y in ys
  {
    if p.x == x && p.y in ys {
      var j :| 0 <= j < |ys| && ys[j] == p.y;
      assert Column(x, ys)[j] == p;
    }
  }

  /** The cell in column `i` of the outer list and row `j` of the inner one. */
  lemma TraversalStep(size: nat, vector: Pos, i: int, j: int)
    requires IsUnit(vector) && 0 <= i < size && 0 <= j < size
    ensures var t := BuildTraversals(size, vector);
            GoodStep(Order(t.x[..i], t.y) + Column(t.x[i], t.y[..j]), Pos(t.x[i], t.y[j]), size, vector)
  {
    var t := BuildTraversals(size, vector);
    var prior := Order(t.x[..i], t.y) + Column(t.x[i], t.y[..j]);
    var c := Pos(t.x[i], t.y[j]);
    OrderContains(t.x[..i], t.y, c);
    ColumnContains(t.x[i], t.y[..j], c);
    forall p | WithinBounds(size, p) && Ahead(c, p, vector)
      ensures p in prior
    {
      OrderContains(t.x[..i], t.y, p);
      ColumnContains(t.x[i], t.y[..j], p);
      if vector.x == 1 {
        assert t.x[..i][size - 1 - p.x] == p.x;
        assert t.y[j] == p.y;
      } else if vector.x == -1 {
        assert t.x[..i][p.x] == p.x;
        assert t.y[j] == p.y;
      } else if vector.y == 1 {
        assert t.y[..j][size - 1 - p.y] == p.y;
      } else {
        assert t.y[..j][p.y] == p.y;
      }
    }
  }

  lemma {:induction false} TraversalPrefixGood(size: nat, vector: Pos, i: int)
    requires IsUnit(vector) && 0 <= i <= size
    ensures var t := BuildTraversals(size, vector);
            GoodOrder(Order(t.x[..i], t.y), size, vector)
    decreases i
  {
    var t := BuildTraversals(size, vector);
    if i > 0 {
      TraversalPrefixGood(size, vector, i - 1);
      OrderStep(t.x, t.y, i - 1);
      var column := Column(t.x[i - 1], t.y);
      forall j | 0 <= j < |column|
        ensures GoodStep(Order(t.x[..i - 1], t.y) + column[..j], column[j], size, vector)
      {
        assert column[..j] == Column(t.x[i - 1], t.y[..j]);
        TraversalStep(size, vector, i - 1, j);
      }
      GoodAppend(Order(t.x[..i - 1], t.y), column, size, vector);
    }
  }

  /** The order in which `move` visits the cells is a good order for its vector. */
  lemma TraversalOrderGood(size: nat, vector: Pos)
    requires IsUnit(vector)
    ensures GoodOrder(TraversalOrder(size, vector), size, vector)
  {
    var t := BuildTraversals(size, vector);
    TraversalPrefixGood(size, vector, size);
    assert t.x[..size] == t.x;
  }

  /** ... and it visits every cell of the board exactly once. */
  lemma TraversalOrderCovers(size: nat, vector: Pos, p: Pos)
    ensures p in TraversalOrder(size, vector) <==> WithinBounds(size, p)
    ensures |TraversalOrder(size, vector)| == size * size
  {
    var t := BuildTraversals(size, vector);
    OrderContains(t.x, t.y, p);
    TraversalContains(size, vector.x, p.x);
    TraversalContains(size, vector.y, p.y);
    OrderLength(t.x, t.y);
  }

  lemma {:induction false} OrderLength(xs: seq<int>, ys: seq<int>)
    ensures |Order(xs, ys)| == |xs| * |ys|
    decreases |xs|
  {
    if xs != [] {
      OrderLength(xs[..|xs| - 1], ys);
      assert |xs| * |ys| == (|xs| - 1) * |ys| + |ys|;
    }
  }
}
