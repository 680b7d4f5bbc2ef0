/**
 * The hex-lattice grid generator (`generateGrid`).
 *
 * Columns are `ColumnStep` apart in x; column k starts its y-run at a height
 * chosen by `k % 6` and steps by the hex height `hexH` while below the
 * viewport height. Reals are exact here: `hexH` (sqrt(3) * 10 in the script)
 * is any positive parameter.
 */
module Lattice {
  import opened Geometry

  /** Hex size of the script; hexW = 2 * HexSize. */
  const HexSize: real := 10.0
  /** The x step between columns: hexW / 4. */
  const ColumnStep: real := 2.0 * HexSize / 4.0

  // ---------------------------------------------------------------------------
  // Counting the iterations of a `for (v = from; v < bound; v += step)` loop
  // ---------------------------------------------------------------------------

  /** The k-th value of `v` in `for (v = from; ...; v += step)`. */
  function Nth(from: real, step: real, k: nat): real
  {
    if k == 0 then from else Nth(from, step, k - 1) + step
  }

  lemma {:induction false} NthClosed(from: real, step: real, k: nat)
    ensures Nth(from, step, k) == from + k as real * step
  {
    if k > 0 {
      NthClosed(from, step, k - 1);
    }
  }

  /** With a positive step the loop variable strictly increases. */
  lemma {:induction false} NthIncreasing(from: real, step: real, i: nat, j: nat)
    requires step > 0.0 && i < j
    ensures Nth(from, step, i) < Nth(from, step, j)
  {
    if i < j - 1 {
      NthIncreasing(from, step, i, j - 1);
    }
  }

  /** Starting one step later shifts the loop values by one. */
  lemma {:induction false} NthShift(from: real, step: real, k: nat)
    ensures Nth(from + step, step, k) == Nth(from, step, k + 1)
  {
    if k > 0 {
      NthShift(from, step, k - 1);
    }
  }

  /** A bound on the iterations left: one more than the whole steps that
      still fit below the bound. */
  function Remaining(from: real, bound: real, step: real): nat
    requires step > 0.0
  {
    if bound <= from then 0 else ((bound - from) / step).Floor + 1
  }

  lemma RemainingDecreases(from: real, bound: real, step: real)
    requires step > 0.0 && from < bound
    ensures Remaining(from + step, bound, step) < Remaining(from, bound, step)
  {
    var q := (bound - from) / step;
    assert q > 0.0;
    if from + step < bound {
      assert q * step == bound - from;
      assert (q - 1.0) * step == bound - (from + step);
      DivUnique(bound - (from + step), step, q - 1.0);
    }
  }

  lemma DivUnique(x: real, step: real, y: real)
    requires step > 0.0 && y * step == x
    ensures x / step == y
  {
  }

  /** The number of iterations of `for (v = from; v < bound; v += step)`:
      the least n whose n-th value is no longer below the bound. */
  function Steps(from: real, bound: real, step: real): (n: nat)
    requires step > 0.0
    ensures Nth(from, step, n) >= bound
    ensures n == 0 || Nth(from, step, n - 1) < bound
    decreases Remaining(from, bound, step)
  {
    if bound <= from then 0
    else
      RemainingDecreases(from, bound, step);
      var m := Steps(from + step, bound, step);
      NthShift(from, step, m);
      if m > 0 then
        NthShift(from, step, m - 1);
        m + 1
      else
        m + 1
  }

  /** The k-th loop value is below the bound exactly when k is an iteration. */
  lemma BelowSteps(from: real, bound: real, step: real, k: nat)
    requires step > 0.0
    ensures k < Steps(from, bound, step) <==> Nth(from, step, k) < bound
  {
    var n := Steps(from, bound, step);
    if k < n - 1 {
      NthIncreasing(from, step, k, n - 1);
    } else if n < k {
      NthIncreasing(from, step, n, k);
    }
  }

  /** The two clauses of `Steps`'s contract determine it. */
  lemma StepsExact(from: real, bound: real, step: real, n: nat)
    requires step > 0.0
    requires Nth(from, step, n) >= bound
    requires n == 0 || Nth(from, step, n - 1) < bound
    ensures Steps(from, bound, step) == n
  {
    var m := Steps(from, bound, step);
    if m < n - 1 {
      NthIncreasing(from, step, m, n - 1);
    }
    BelowSteps(from, bound, step, n);
  }

  // ---------------------------------------------------------------------------
  // The grid as a specification
  // ---------------------------------------------------------------------------

  /** Column k's starting height: types 0 and 4 start at 0, types 1 and 3
      half a hex down, every other type at the viewport height. */
  function ColumnStart(k: nat, H: real, hexH: real): real
  {
    var colType := k % 6;
    if colType == 0 || colType == 4 then 0.0
    else if colType == 1 || colType == 3 then hexH / 2.0
    else H
  }

  /** The points emitted for column k, top to bottom. */
  function Column(k: nat, H: real, hexH: real): seq<Point>
    requires hexH > 0.0
  {
    var x := Nth(0.0, ColumnStep, k);
    var start := ColumnStart(k, H, hexH);
    seq(Steps(start, H, hexH), j requires 0 <= j => Point(x, Nth(start, hexH, j)))
  }

  /** The points of the first c columns, column after column. */
  function GridColumns(c: nat, H: real, hexH: real): seq<Point>
    requires hexH > 0.0
  {
    if c == 0 then [] else GridColumns(c - 1, H, hexH) + Column(c - 1, H, hexH)
  }

  /** The number of columns of a viewport of width W. */
  function ColumnCount(W: real): nat
  {
    Steps(0.0, W, ColumnStep)
  }

  /** `generateGrid(W, H)` as a value. */
  function Grid(W: real, H: real, hexH: real): seq<Point>
    requires hexH > 0.0
  {
    GridColumns(ColumnCount(W), H, hexH)
  }

  // ---------------------------------------------------------------------------
  // The generator, as the script runs it
  // ---------------------------------------------------------------------------

  /** `generateGrid`: the column loop; each column's starting height comes
      from the column type `colIndex % 6`. */
  method GenerateGrid(W: real, H: real, hexH: real) returns (grid: seq<Point>)
    requires hexH > 0.0
    ensures grid == Grid(W, H, hexH)
  {
    grid := [];
    var colIndex: nat := 0;
    var x := 0.0;
    while x < W
      invariant x == Nth(0.0, ColumnStep, colIndex)
      invariant colIndex <= ColumnCount(W)
      invariant grid == GridColumns(colIndex, H, hexH)
      decreases ColumnCount(W) - colIndex
    {
      BelowSteps(0.0, W, ColumnStep, colIndex);
      var colType := colIndex % 6;
      var startPoint := H;
      if colType == 0 || colType == 4 {
        startPoint := 0.0;
      } else if colType == 1 || colType == 3 {
        startPoint := hexH / 2.0;
      }
      grid := PushColumn(grid, x, startPoint, H, hexH);
      colIndex := colIndex + 1;
      x := x + ColumnStep;
    }
    BelowSteps(0.0, W, ColumnStep, colIndex);
  }

  /** `generateGrid`'s inner loop: push the points of one column, from
      `startPoint` down in steps of `hexH` while above `H`. */
  method PushColumn(grid: seq<Point>, x: real, startPoint: real, H: real, hexH: real)
    returns (grid': seq<Point>)
    requires hexH > 0.0
    ensures grid' == grid + seq(Steps(startPoint, H, hexH), j requires 0 <= j => Point(x, Nth(startPoint, hexH, j)))
  {
    ghost var column := seq(Steps(startPoint, H, hexH), j requires 0 <= j => Point(x, Nth(startPoint, hexH, j)));
    grid' := grid;
    ghost var row: nat := 0;
    var y := startPoint;
    while y < H
      invariant y == Nth(startPoint, hexH, row)
      invariant row <= |column|
      invariant grid' == grid + column[..row]
      decreases |column| - row
    {
      BelowSteps(startPoint, H, hexH, row);
      assert column[..row + 1] == column[..row] + [Point(x, y)];
      grid' := grid' + [Point(x, y)];
      y := y + hexH;
      row := row + 1;
    }
    BelowSteps(startPoint, H, hexH, row);
    assert column[..row] == column;
  }

  // ---------------------------------------------------------------------------
  // Properties of the grid
  // ---------------------------------------------------------------------------

  /** Column k is at x = 5k; columns of type 2 and 5 are empty; types 0 and 4
      start at 0 and types 1 and 3 at hexH / 2 whenever they emit anything;
      within a column y increases by exactly hexH from point to point and
      stays below H. */
  lemma ColumnShape(k: nat, H: real, hexH: real)
    requires hexH > 0.0
    ensures forall p | p in Column(k, H, hexH) :: p.x == 5.0 * k as real
    ensures k % 6 == 2 || k % 6 == 5 ==> Column(k, H, hexH) == []
    ensures (k % 6 == 0 || k % 6 == 4) && H > 0.0 ==>
              Column(k, H, hexH) != [] && Column(k, H, hexH)[0].y == 0.0
    ensures (k % 6 == 1 || k % 6 == 3) && hexH / 2.0 < H ==>
              Column(k, H, hexH) != [] && Column(k, H, hexH)[0].y == hexH / 2.0
    ensures forall j | 0 <= j < |Column(k, H, hexH)| - 1 ::
              Column(k, H, hexH)[j + 1].y == Column(k, H, hexH)[j].y + hexH
    ensures forall p | p in Column(k, H, hexH) :: p.y < H
  {
    var start := ColumnStart(k, H, hexH);
    var c := Column(k, H, hexH);
    NthClosed(0.0, ColumnStep, k);
    BelowSteps(start, H, hexH, 0);
    forall p | p in c ensures p.y < H {
      var j :| 0 <= j < |c| && c[j] == p;
      BelowSteps(start, H, hexH, j);
    }
  }

  /** A column holds n points exactly when its n-th step from the start has
      reached H and the one before has not: ceil((H - start) / hexH) points
      when H is above the start, none otherwise. */
  lemma ColumnLength(k: nat, H: real, hexH: real, n: nat)
    requires hexH > 0.0
    requires ColumnStart(k, H, hexH) + n as real * hexH >= H
    requires n == 0 || ColumnStart(k, H, hexH) + (n - 1) as real * hexH < H
    ensures |Column(k, H, hexH)| == n
  {
    var start := ColumnStart(k, H, hexH);
    NthClosed(start, hexH, n);
    if n > 0 {
      NthClosed(start, hexH, n - 1);
    }
    StepsExact(start, H, hexH, n);
  }

  /** Every point of the first c columns lies at the x of a column below c. */
  lemma {:induction false} GridColumnsX(c: nat, H: real, hexH: real)
    requires hexH > 0.0
    ensures forall p | p in GridColumns(c, H, hexH) ::
              0.0 <= p.x && (c == 0 || p.x <= Nth(0.0, ColumnStep, c - 1))
  {
    if c > 0 {
      GridColumnsX(c - 1, H, hexH);
      forall p | p in GridColumns(c, H, hexH)
        ensures 0.0 <= p.x <= Nth(0.0, ColumnStep, c - 1)
      {
        if p in GridColumns(c - 1, H, hexH) {
          NthIncreasing(0.0, ColumnStep, c - 2, c - 1);
        } else if c > 1 {
          NthIncreasing(0.0, ColumnStep, 0, c - 1);
        }
      }
    }
  }

  lemma {:induction false} ColumnsYBounds(c: nat, H: real, hexH: real)
    requires hexH > 0.0
    ensures forall p | p in GridColumns(c, H, hexH) :: 0.0 <= p.y < H
  {
    if c > 0 {
      ColumnsYBounds(c - 1, H, hexH);
      ColumnShape(c - 1, H, hexH);
      var start := ColumnStart(c - 1, H, hexH);
      var col := Column(c - 1, H, hexH);
      forall p | p in col ensures 0.0 <= p.y {
        var j :| 0 <= j < |col| && col[j] == p;
        BelowSteps(start, H, hexH, j);
        BelowSteps(start, H, hexH, 0);
        if j > 0 {
          NthIncreasing(start, hexH, 0, j);
        }
      }
    }
  }

  /** Every grid point lies in the viewport [0, W) x [0, H). */
  lemma GridInBounds(W: real, H: real, hexH: real)
    requires hexH > 0.0
    ensures forall p | p in Grid(W, H, hexH) :: 0.0 <= p.x < W && 0.0 <= p.y < H
  {
    var n := ColumnCount(W);
    ColumnsYBounds(n, H, hexH);
    GridColumnsX(n, H, hexH);
    if n > 0 {
      BelowSteps(0.0, W, ColumnStep, n - 1);
    }
  }

  /** The grid is empty exactly when the viewport has no area; a degenerate
      viewport is not an error. */
  lemma GridEmpty(W: real, H: real, hexH: real)
    requires hexH > 0.0
    ensures Grid(W, H, hexH) == [] <==> W <= 0.0 || H <= 0.0
  {
    var n := ColumnCount(W);
    if H <= 0.0 {
      EmptyColumns(n, H, hexH);
    } else if W > 0.0 {
      BelowSteps(0.0, W, ColumnStep, 0);
      ColumnShape(0, H, hexH);
      NonEmptyPrefix(n, H, hexH);
    }
  }

  lemma {:induction false} EmptyColumns(c: nat, H: real, hexH: real)
    requires hexH > 0.0 && H <= 0.0
    ensures GridColumns(c, H, hexH) == []
  {
    if c > 0 {
      EmptyColumns(c - 1, H, hexH);
      BelowSteps(ColumnStart(c - 1, H, hexH), H, hexH, 0);
    }
  }

  lemma {:induction false} NonEmptyPrefix(c: nat, H: real, hexH: real)
    requires hexH > 0.0 && c > 0 && Column(0, H, hexH) != []
    ensures GridColumns(c, H, hexH) != []
  {
    if c > 1 {
      NonEmptyPrefix(c - 1, H, hexH);
    }
  }

  /** Grid order: p comes before q when p's column is left of q's, or it is
      the same column and p is higher up. */
  predicate Before(p: Point, q: Point)
  {
    p.x < q.x || (p.x == q.x && p.y < q.y)
  }

  /** The points of a sequence are strictly increasing in grid order. */
  predicate ColumnMajor(s: seq<Point>)
  {
    forall i, j | 0 <= i < j < |s| :: Before(s[i], s[j])
  }

  /** Points within a column run in increasing y; every point of column k
      comes before every point of column k + 1. */
  lemma GridColumnMajor(W: real, H: real, hexH: real)
    requires hexH > 0.0
    ensures ColumnMajor(Grid(W, H, hexH))
  {
    ColumnsColumnMajor(ColumnCount(W), H, hexH);
  }

  lemma {:induction false} ColumnsColumnMajor(c: nat, H: real, hexH: real)
    requires hexH > 0.0
    ensures ColumnMajor(GridColumns(c, H, hexH))
  {
    if c > 0 {
      var left := GridColumns(c - 1, H, hexH);
      var col := Column(c - 1, H, hexH);
      ColumnsColumnMajor(c - 1, H, hexH);
      GridColumnsX(c - 1, H, hexH);
      if c > 1 {
        NthIncreasing(0.0, ColumnStep, c - 2, c - 1);
      }
      forall i, j | 0 <= i < j < |col| ensures Before(col[i], col[j]) {
        NthIncreasing(ColumnStart(c - 1, H, hexH), hexH, i, j);
      }
      ConcatColumnMajor(left, col);
    }
  }

  /** Two runs in grid order, the first entirely left of the second, join
      into one. */
  lemma ConcatColumnMajor(left: seq<Point>, right: seq<Point>)
    requires ColumnMajor(left) && ColumnMajor(right)
    requires forall p, q | p in left && q in right :: p.x < q.x
    ensures ColumnMajor(left + right)
  {
    var s := left + right;
    forall i, j | 0 <= i < j < |s| ensures Before(s[i], s[j]) {
      if j < |left| {
        assert s[i] == left[i] && s[j] == left[j];
      } else if i < |left| {
        assert s[i] in left && s[j] in right;
      } else {
        assert s[i] == right[i - |left|] && s[j] == right[j - |left|];
      }
    }
  }

  /** Consecutive points of one column are exactly hexH apart. */
  lemma GridSpacing(W: real, H: real, hexH: real)
    requires hexH > 0.0
    ensures forall i | 0 <= i < |Grid(W, H, hexH)| - 1 ::
              Grid(W, H, hexH)[i].x == Grid(W, H, hexH)[i + 1].x ==>
                Grid(W, H, hexH)[i + 1].y == Grid(W, H, hexH)[i].y + hexH
  {
    ColumnsSpacing(ColumnCount(W), H, hexH);
  }

  lemma {:induction false} ColumnsSpacing(c: nat, H: real, hexH: real)
    requires hexH > 0.0
    ensures forall i | 0 <= i < |GridColumns(c, H, hexH)| - 1 ::
              GridColumns(c, H, hexH)[i].x == GridColumns(c, H, hexH)[i + 1].x ==>
                GridColumns(c, H, hexH)[i + 1].y == GridColumns(c, H, hexH)[i].y + hexH
  {
    if c > 0 {
      var left := GridColumns(c - 1, H, hexH);
      var col := Column(c - 1, H, hexH);
      var s := left + col;
      ColumnsSpacing(c - 1, H, hexH);
      GridColumnsX(c - 1, H, hexH);
      if c > 1 {
        NthIncreasing(0.0, ColumnStep, c - 2, c - 1);
      }
      forall i | 0 <= i < |s| - 1 && s[i].x == s[i + 1].x
        ensures s[i + 1].y == s[i].y + hexH
      {
        if i + 1 == |left| {
          assert false;
        } else if i >= |left| {
          assert s[i] == col[i - |left|] && s[i + 1] == col[i + 1 - |left|];
        }
      }
    }
  }

  /** No point appears twice in the grid. */
  lemma GridDistinct(W: real, H: real, hexH: real)
    requires hexH > 0.0
    ensures forall i, j | 0 <= i < j < |Grid(W, H, hexH)| :: Grid(W, H, hexH)[i] != Grid(W, H, hexH)[j]
  {
    GridColumnMajor(W, H, hexH);
  }

  /** A 40 x 20 viewport with hexH between 17 and 18 (sqrt(3) * 10 is about
      17.32): eight columns, holding 2, 1, 0, 1, 2, 0, 2 and 1 points. */
  lemma GridScenario(hexH: real)
    requires 17.0 < hexH < 18.0
    ensures Grid(40.0, 20.0, hexH) ==
      [Point(0.0, 0.0), Point(0.0, hexH),
       Point(5.0, hexH / 2.0),
       Point(15.0, hexH / 2.0),
       Point(20.0, 0.0), Point(20.0, hexH),
       Point(30.0, 0.0), Point(30.0, hexH),
       Point(35.0, hexH / 2.0)]
  {
    var H := 20.0;
    ScenarioWidth();
    assert Grid(40.0, H, hexH) == GridColumns(8, H, hexH);
    var g := [Point(0.0, 0.0), Point(0.0, hexH)];
    assert GridColumns(1, H, hexH) == g by { ScenarioColumn(0, hexH); }
    g := g + [Point(5.0, hexH / 2.0)];
    assert GridColumns(2, H, hexH) == g by { ScenarioColumn(1, hexH); }
    assert GridColumns(3, H, hexH) == g by { ScenarioColumn(2, hexH); }
    g := g + [Point(15.0, hexH / 2.0)];
    assert GridColumns(4, H, hexH) == g by { ScenarioColumn(3, hexH); }
    g := g + [Point(20.0, 0.0), Point(20.0, hexH)];
    assert GridColumns(5, H, hexH) == g by { ScenarioColumn(4, hexH); }
    assert GridColumns(6, H, hexH) == g by { ScenarioColumn(5, hexH); }
    g := g + [Point(30.0, 0.0), Point(30.0, hexH)];
    assert GridColumns(7, H, hexH) == g by { ScenarioColumn(6, hexH); }
    g := g + [Point(35.0, hexH / 2.0)];
    assert GridColumns(8, H, hexH) == g by { ScenarioColumn(7, hexH); }
  }

  /** A 40-wide viewport has eight columns, at x = 0, 5, ..., 35. */
  lemma ScenarioWidth()
    ensures ColumnCount(40.0) == 8
  {
    NthClosed(0.0, ColumnStep, 8);
    NthClosed(0.0, ColumnStep, 7);
    StepsExact(0.0, 40.0, ColumnStep, 8);
  }

  /** Column k of the 40 x 20 scenario: two points, one point or none at x = 5k. */
  lemma ScenarioColumn(k: nat, hexH: real)
    requires 17.0 < hexH < 18.0 && k < 8
    ensures Column(k, 20.0, hexH) ==
      var x := 5.0 * k as real;
      if k % 6 in {0, 4} then [Point(x, 0.0), Point(x, hexH)]
      else if k % 6 in {1, 3} then [Point(x, hexH / 2.0)]
      else []
  {
    NthClosed(0.0, ColumnStep, k);
    NthClosed(0.0, hexH, 2);
    if k % 6 in {0, 4} {
      StepsExact(0.0, 20.0, hexH, 2);
    } else if k % 6 in {1, 3} {
      StepsExact(hexH / 2.0, 20.0, hexH, 1);
    } else {
      StepsExact(20.0, 20.0, hexH, 0);
    }
  }
}
