/**
 The textbook semantics of Conway's Game of Life on a bounded rectangle with
 no wrap-around, written independently of the cell and board code: a grid of
 booleans, the B3/S23 rule, the synchronous step, and the number of cells in
 which two grids differ.
 */
module Life {

  type Grid = seq<seq<bool>>

  /** `g` has `rows` rows of `cols` cells each. */
  predicate IsGrid(g: Grid, rows: nat, cols: nat) {
    |g| == rows && forall i :: 0 <= i < rows ==> |g[i]| == cols
  }

  /** `g` and `h` have the same number of rows and each row the same length. */
  predicate SameShape(g: Grid, h: Grid) {
    |g| == |h| && forall i :: 0 <= i < |g| ==> |g[i]| == |h[i]|
  }

  /** B3/S23: a cell is live in the next generation when it has exactly three
      live neighbours, or when it is live now and has exactly two. */
  predicate Rule(alive: bool, n: int) {
    n == 3 || (alive && n == 2)
  }

  /** 1 when (p, q) lies on the grid and is live; 0 otherwise (off-grid
      positions count as dead, so there is no wrap-around). */
  function Lit(g: Grid, p: int, q: int): nat {
    if 0 <= p < |g| && 0 <= q < |g[p]| && g[p][q] then 1 else 0
  }

  /** Number of live cells among the eight positions around (i, j). */
  function LiveAround(g: Grid, i: int, j: int): nat {
    Lit(g, i - 1, j - 1) + Lit(g, i - 1, j) + Lit(g, i - 1, j + 1) +
    Lit(g, i, j - 1) + Lit(g, i, j + 1) +
    Lit(g, i + 1, j - 1) + Lit(g, i + 1, j) + Lit(g, i + 1, j + 1)
  }

  /** One synchronous generation: every cell is computed from `g` alone. */
  function LifeStep(g: Grid): Grid {
    seq(|g|, i requires 0 <= i < |g| =>
      seq(|g[i]|, j requires 0 <= j < |g[i]| => Rule(g[i][j], LiveAround(g, i, j))))
  }

  /** Number of positions j < n at which rows `a` and `b` differ. */
  function RowDiff(a: seq<bool>, b: seq<bool>, n: nat): (r: nat)
    requires n <= |a| && n <= |b|
    ensures r <= n
  {
    if n == 0 then 0
    else RowDiff(a, b, n - 1) + (if a[n - 1] != b[n - 1] then 1 else 0)
  }

  /** Number of cells in the first `m` rows at which `g` and `h` differ. */
  function GridDiff(g: Grid, h: Grid, m: nat): nat
    requires SameShape(g, h) && m <= |g|
  {
    if m == 0 then 0
    else GridDiff(g, h, m - 1) + RowDiff(g[m - 1], h[m - 1], |g[m - 1]|)
  }

  /** Number of cells at which `g` and `h` differ. */
  function DiffCount(g: Grid, h: Grid): nat
    requires SameShape(g, h)
  {
    GridDiff(g, h, |g|)
  }

  lemma {:induction false} RowDiffZero(a: seq<bool>, b: seq<bool>, n: nat)
    requires n <= |a| && n <= |b|
    ensures RowDiff(a, b, n) == 0 <==> forall j :: 0 <= j < n ==> a[j] == b[j]
  {
    if n > 0 {
      RowDiffZero(a, b, n - 1);
    }
  }

  lemma {:induction false} GridDiffZero(g: Grid, h: Grid, m: nat)
    requires SameShape(g, h) && m <= |g|
    ensures GridDiff(g, h, m) == 0 <==>
      forall i, j :: 0 <= i < m && 0 <= j < |g[i]| ==> g[i][j] == h[i][j]
  {
    if m > 0 {
      GridDiffZero(g, h, m - 1);
      RowDiffZero(g[m - 1], h[m - 1], |g[m - 1]|);
    }
  }

  lemma {:induction false} GridDiffBound(g: Grid, h: Grid, m: nat, rows: nat, cols: nat)
    requires IsGrid(g, rows, cols) && IsGrid(h, rows, cols) && m <= rows
    ensures GridDiff(g, h, m) <= m * cols
  {
    if m > 0 {
      GridDiffBound(g, h, m - 1, rows, cols);
      assert (m - 1) * cols + cols == m * cols;
    }
  }

  /** Two grids of the same dimensions differ in at most rows * cols cells. */
  lemma DiffCountBound(g: Grid, h: Grid, rows: nat, cols: nat)
    requires IsGrid(g, rows, cols) && IsGrid(h, rows, cols)
    ensures DiffCount(g, h) <= rows * cols
  {
    GridDiffBound(g, h, rows, rows, cols);
  }

  /** The difference count is zero exactly when the grids are equal. */
  lemma DiffCountZeroIffEqual(g: Grid, h: Grid)
    requires SameShape(g, h)
    ensures DiffCount(g, h) == 0 <==> g == h
  {
    GridDiffZero(g, h, |g|);
    if DiffCount(g, h) == 0 {
      forall i | 0 <= i < |g|
        ensures g[i] == h[i]
      {
        assert forall j :: 0 <= j < |g[i]| ==> g[i][j] == h[i][j];
      }
    }
  }

  /** Once a step changes nothing, the grid is a fixed point and every later
      step changes nothing either. */
  lemma FixedPointIsStable(g: Grid)
    requires DiffCount(g, LifeStep(g)) == 0
    ensures LifeStep(g) == g
    ensures SameShape(LifeStep(g), LifeStep(LifeStep(g)))
    ensures DiffCount(LifeStep(g), LifeStep(LifeStep(g))) == 0
  {
    DiffCountZeroIffEqual(g, LifeStep(g));
    DiffCountZeroIffEqual(LifeStep(g), LifeStep(LifeStep(g)));
  }

  /** An all-dead grid of any size stays all dead. */
  lemma DeadGridIsFixed(g: Grid)
    requires forall i, j :: 0 <= i < |g| && 0 <= j < |g[i]| ==> !g[i][j]
    ensures LifeStep(g) == g
  {
    forall i | 0 <= i < |g|
      ensures LifeStep(g)[i] == g[i]
    {
      forall j | 0 <= j < |g[i]|
        ensures LifeStep(g)[i][j] == g[i][j]
      {
        assert LiveAround(g, i, j) == 0;
      }
    }
  }

  /** A 2 x 2 block is a still life. */
  lemma BlockIsStill()
    ensures var o, x := false, true;
      var g := [[o, o, o, o], [o, x, x, o], [o, x, x, o], [o, o, o, o]];
      LifeStep(g) == g
  {
    var o, x := false, true;
    var g := [[o, o, o, o], [o, x, x, o], [o, x, x, o], [o, o, o, o]];
    assert LifeStep(g)[0] == g[0];
    assert LifeStep(g)[1] == g[1];
    assert LifeStep(g)[2] == g[2];
    assert LifeStep(g)[3] == g[3];
  }

  /** A blinker on a 3 x 3 board alternates between a vertical and a
      horizontal bar. */
  lemma BlinkerOscillates()
    ensures var o, x := false, true;
      var v := [[o, x, o], [o, x, o], [o, x, o]];
      var h := [[o, o, o], [x, x, x], [o, o, o]];
      LifeStep(v) == h && LifeStep(h) == v
  {
    var o, x := false, true;
    var v := [[o, x, o], [o, x, o], [o, x, o]];
    var h := [[o, o, o], [x, x, x], [o, o, o]];
    assert LifeStep(v)[0] == h[0];
    assert LifeStep(v)[1] == h[1];
    assert LifeStep(v)[2] == h[2];
    assert LifeStep(h)[0] == v[0];
    assert LifeStep(h)[1] == v[1];
    assert LifeStep(h)[2] == v[2];
  }

  /** The two blinker phases differ in four cells, so every generation of a
      blinker reports four changes and never zero. */
  lemma BlinkerChangeCount()
    ensures var o, x := false, true;
      var v := [[o, x, o], [o, x, o], [o, x, o]];
      var h := [[o, o, o], [x, x, x], [o, o, o]];
      SameShape(v, h) && DiffCount(v, h) == 4 && DiffCount(h, v) == 4
  {
    var o, x := false, true;
    var v := [[o, x, o], [o, x, o], [o, x, o]];
    var h := [[o, o, o], [x, x, x], [o, o, o]];
    assert RowDiff(v[0], h[0], 1) == 0 && RowDiff(v[0], h[0], 2) == 1 && RowDiff(v[0], h[0], 3) == 1;
    assert RowDiff(v[1], h[1], 1) == 1 && RowDiff(v[1], h[1], 2) == 1 && RowDiff(v[1], h[1], 3) == 2;
    assert RowDiff(v[2], h[2], 1) == 0 && RowDiff(v[2], h[2], 2) == 1 && RowDiff(v[2], h[2], 3) == 1;
    assert GridDiff(v, h, 1) == 1 && GridDiff(v, h, 2) == 3 && GridDiff(v, h, 3) == 4;
    assert RowDiff(h[0], v[0], 1) == 0 && RowDiff(h[0], v[0], 2) == 1 && RowDiff(h[0], v[0], 3) == 1;
    assert RowDiff(h[1], v[1], 1) == 1 && RowDiff(h[1], v[1], 2) == 1 && RowDiff(h[1], v[1], 3) == 2;
    assert RowDiff(h[2], v[2], 1) == 0 && RowDiff(h[2], v[2], 2) == 1 && RowDiff(h[2], v[2], 3) == 1;
    assert GridDiff(h, v, 1) == 1 && GridDiff(h, v, 2) == 3;
    assert GridDiff(h, v, 3) == 4;
  }
}
