/**
 The board: a row-major grid of cells with the clipped Moore neighbourhood,
 the two-phase generation step and random reseeding. The random source is
 replaced by the pair of bits it would have drawn for each cell.
 */
module GolBoard {
  import opened Wrappers
  import opened Life
  import GolCell

  type Cell = GolCell.Cell

  datatype Board = Board(numRows: nat, numCols: nat, cells: seq<seq<Cell>>) {

    /** The grid has the board's dimensions and cell [r][c] sits at (r, c). */
    predicate Valid() {
      && |cells| == numRows
      && (forall i :: 0 <= i < numRows ==> |cells[i]| == numCols)
      && (forall i, j :: 0 <= i < numRows && 0 <= j < numCols ==>
            cells[i][j].row == i && cells[i][j].col == j)
    }

    predicate InBounds(p: int, q: int) {
      0 <= p < numRows && 0 <= q < numCols
    }

    /** No cell holds an uncommitted vote. */
    predicate NoPending()
      requires Valid()
    {
      forall i, j :: 0 <= i < numRows && 0 <= j < numCols ==> cells[i][j].nextState.None?
    }
  }

  /** (p, q) is one of the eight positions around (y, x). */
  predicate Adjacent(p: int, q: int, y: int, x: int) {
    (p, q) != (y, x) && -1 <= p - y <= 1 && -1 <= q - x <= 1
  }

  /** The `alive` flags of the board, as a plain grid. */
  function AliveGrid(b: Board): Grid {
    seq(|b.cells|, i requires 0 <= i < |b.cells| =>
      seq(|b.cells[i]|, j requires 0 <= j < |b.cells[i]| => b.cells[i][j].alive))
  }

  /** The grid every cell would hold once its pending vote, if any, is
      committed. */
  function Committed(b: Board): Grid {
    seq(|b.cells|, i requires 0 <= i < |b.cells| =>
      seq(|b.cells[i]|, j requires 0 <= j < |b.cells[i]| =>
        match b.cells[i][j].nextState
        case Some(v) => v
        case None => b.cells[i][j].alive))
  }

  /** Boards that agree on dimensions and on every `alive` flag have the same
      alive grid, whatever their pending votes. */
  lemma SameAliveGrid(b: Board, d: Board)
    requires b.Valid() && d.Valid()
    requires b.numRows == d.numRows && b.numCols == d.numCols
    requires forall i, j :: b.InBounds(i, j) ==> b.cells[i][j].alive == d.cells[i][j].alive
    ensures AliveGrid(b) == AliveGrid(d)
  {
    forall i | 0 <= i < b.numRows
      ensures AliveGrid(b)[i] == AliveGrid(d)[i]
    {
    }
  }

  /** A new board of `numRows` x `numCols` dead cells without votes, cell
      [r][c] at coordinates (r, c). */
  function New(numRows: nat, numCols: nat): (b: Board)
    ensures b.Valid() && b.numRows == numRows && b.numCols == numCols
    ensures b.NoPending()
    ensures IsGrid(AliveGrid(b), numRows, numCols)
    ensures forall i, j :: b.InBounds(i, j) ==> !AliveGrid(b)[i][j]
  {
    Board(numRows, numCols,
      seq(numRows, i => seq(numCols, j => GolCell.New(i, j))))
  }

  /** The cell at offset (dr, dc) from `cell`, or `nil` for the zero offset
      and for positions off the board. */
  function Neighbor(b: Board, cell: Cell, dr: int, dc: int): (r: Option<Cell>)
    requires b.Valid()
    ensures r.None? <==> (dr == 0 && dc == 0) || !b.InBounds(cell.row + dr, cell.col + dc)
    ensures r.Some? ==> r.value.row == cell.row + dr && r.value.col == cell.col + dc
    ensures r.Some? ==> r.value == b.cells[r.value.row][r.value.col]
  {
    if dr == 0 && dc == 0 then None
    else
      var row := cell.row + dr;
      var col := cell.col + dc;
      if row < 0 || col < 0 || row >= b.numRows || col >= b.numCols then None
      else Some(b.cells[row][col])
  }

  /** The neighbours found at row offset `dr`, column offsets 0, -1, 1. */
  function NeighborsInRow(b: Board, cell: Cell, dr: int): seq<Cell>
    requires b.Valid()
  {
    Keep(Neighbor(b, cell, dr, 0)) + Keep(Neighbor(b, cell, dr, -1)) + Keep(Neighbor(b, cell, dr, 1))
  }

  /** The neighbours of cell [y][x], visiting row offsets 0, -1, 1. */
  function Neighbors(b: Board, y: int, x: int): (r: seq<Cell>)
    requires b.Valid() && b.InBounds(y, x)
    ensures |r| <= 8
  {
    var cell := b.cells[y][x];
    NeighborsInRow(b, cell, 0) + NeighborsInRow(b, cell, -1) + NeighborsInRow(b, cell, 1)
  }

  lemma RowMember(b: Board, cell: Cell, dr: int, e: Cell)
    requires b.Valid()
    requires e in NeighborsInRow(b, cell, dr)
    ensures b.InBounds(e.row, e.col) && b.cells[e.row][e.col] == e
    ensures e.row == cell.row + dr && -1 <= e.col - cell.col <= 1
    ensures dr == 0 ==> e.col != cell.col
  {
    var s0 := Keep(Neighbor(b, cell, dr, 0));
    var s1 := Keep(Neighbor(b, cell, dr, -1));
    var s2 := Keep(Neighbor(b, cell, dr, 1));
    assert e in s0 || e in s1 || e in s2;
  }

  /** Everything `neighbors(y, x)` returns is an on-board cell adjacent to
      (y, x); in particular never the cell itself. */
  lemma NeighborsAreAdjacent(b: Board, y: int, x: int)
    requires b.Valid() && b.InBounds(y, x)
    ensures forall e :: e in Neighbors(b, y, x) ==>
      b.InBounds(e.row, e.col) && b.cells[e.row][e.col] == e && Adjacent(e.row, e.col, y, x)
    ensures b.cells[y][x] !in Neighbors(b, y, x)
  {
    var cell := b.cells[y][x];
    forall e | e in Neighbors(b, y, x)
      ensures b.InBounds(e.row, e.col) && b.cells[e.row][e.col] == e && Adjacent(e.row, e.col, y, x)
    {
      if e in NeighborsInRow(b, cell, 0) {
        RowMember(b, cell, 0, e);
      } else if e in NeighborsInRow(b, cell, -1) {
        RowMember(b, cell, -1, e);
      } else {
        RowMember(b, cell, 1, e);
      }
    }
  }

  /** Every on-board cell adjacent to (y, x) is among its neighbours: the
      neighbourhood is clipped at the edges, never wrapped. */
  lemma AdjacentAreNeighbors(b: Board, y: int, x: int, p: int, q: int)
    requires b.Valid() && b.InBounds(y, x)
    requires b.InBounds(p, q) && Adjacent(p, q, y, x)
    ensures b.cells[p][q] in Neighbors(b, y, x)
  {
    var cell := b.cells[y][x];
    assert cell.row == y && cell.col == x;
    var r0 := NeighborsInRow(b, cell, 0);
    var r1 := NeighborsInRow(b, cell, -1);
    var r2 := NeighborsInRow(b, cell, 1);
    assert Neighbors(b, y, x) == r0 + r1 + r2;
    if p == y {
      InRow(b, cell, 0, q - x, p, q);
    } else if p == y - 1 {
      InRow(b, cell, -1, q - x, p, q);
    } else {
      InRow(b, cell, 1, q - x, p, q);
    }
  }

  /** A cell found at column offset -1, 0 or 1 is in that row's neighbours. */
  lemma InRow(b: Board, cell: Cell, dr: int, dc: int, p: int, q: int)
    requires b.Valid() && -1 <= dc <= 1 && (dr, dc) != (0, 0)
    requires p == cell.row + dr && q == cell.col + dc && b.InBounds(p, q)
    ensures b.cells[p][q] in NeighborsInRow(b, cell, dr)
  {
    var e := b.cells[p][q];
    assert Neighbor(b, cell, dr, dc) == Some(e);
    var s0, s1, s2 := Keep(Neighbor(b, cell, dr, 0)), Keep(Neighbor(b, cell, dr, -1)), Keep(Neighbor(b, cell, dr, 1));
    assert NeighborsInRow(b, cell, dr) == s0 + s1 + s2;
    if dc == 0 {
      assert e in s0;
    } else if dc == -1 {
      assert e in s1;
    } else {
      assert e in s2;
    }
  }

  /** How many of i - 1, i, i + 1 lie in [0, n), for 0 <= i < n. */
  function Span(i: int, n: int): nat {
    (if i > 0 then 1 else 0) + 1 + (if i + 1 < n then 1 else 0)
  }

  /** The neighbourhood is the 3 x 3 block clipped to the board, minus the
      cell itself. */
  lemma NeighborCount(b: Board, y: int, x: int)
    requires b.Valid() && b.InBounds(y, x)
    ensures |Neighbors(b, y, x)| == Span(y, b.numRows) * Span(x, b.numCols) - 1
  {
    var cell := b.cells[y][x];
    var w := Span(x, b.numCols);
    RowLength(b, y, x, 0, y);
    RowLength(b, y, x, -1, y - 1);
    RowLength(b, y, x, 1, y + 1);
    assert |Neighbors(b, y, x)| ==
      |NeighborsInRow(b, cell, 0)| + |NeighborsInRow(b, cell, -1)| + |NeighborsInRow(b, cell, 1)|;
    SpanTimes(y, b.numRows, w);
  }

  lemma SpanTimes(y: int, n: int, w: int)
    ensures Span(y, n) * w == (if y > 0 then w else 0) + w + (if y + 1 < n then w else 0)
  {
  }

  lemma RowLength(b: Board, y: int, x: int, dr: int, p: int)
    requires b.Valid() && b.InBounds(y, x) && p == y + dr
    ensures |NeighborsInRow(b, b.cells[y][x], dr)| ==
      if 0 <= p < b.numRows then Span(x, b.numCols) - (if dr == 0 then 1 else 0) else 0
  {
  }

  /** Corner cells have 3 neighbours, other edge cells 5, interior cells 8. */
  lemma NeighborCountCases(b: Board, y: int, x: int)
    requires b.Valid() && b.InBounds(y, x)
    requires b.numRows >= 2 && b.numCols >= 2
    ensures (y == 0 || y == b.numRows - 1) && (x == 0 || x == b.numCols - 1) ==>
      |Neighbors(b, y, x)| == 3
    ensures (y == 0 || y == b.numRows - 1) && 0 < x < b.numCols - 1 ==>
      |Neighbors(b, y, x)| == 5
    ensures 0 < y < b.numRows - 1 && (x == 0 || x == b.numCols - 1) ==>
      |Neighbors(b, y, x)| == 5
    ensures 0 < y < b.numRows - 1 && 0 < x < b.numCols - 1 ==>
      |Neighbors(b, y, x)| == 8
  {
    NeighborCount(b, y, x);
    var sy, sx := Span(y, b.numRows), Span(x, b.numCols);
    var edgeY, edgeX := y == 0 || y == b.numRows - 1, x == 0 || x == b.numCols - 1;
    if edgeY && edgeX {
      assert sy == 2 && sx == 2;
    } else if edgeY {
      assert sy == 2 && sx == 3;
    } else if edgeX {
      assert sy == 3 && sx == 2;
    } else {
      assert sy == 3 && sx == 3;
    }
  }

  /** 1 when (p, q) is on the board and its cell is alive, else 0. */
  function AliveAt(b: Board, p: int, q: int): nat
    requires b.Valid()
  {
    if b.InBounds(p, q) && b.cells[p][q].alive then 1 else 0
  }

  lemma AliveAtIsLit(b: Board, p: int, q: int)
    requires b.Valid()
    ensures AliveAt(b, p, q) == Lit(AliveGrid(b), p, q)
  {
  }

  /** One non-zero offset contributes the liveness of the cell it reaches. */
  lemma NeighborLive(b: Board, cell: Cell, dr: int, dc: int, p: int, q: int)
    requires b.Valid()
    requires (dr, dc) != (0, 0) && p == cell.row + dr && q == cell.col + dc
    ensures GolCell.CountAlive(Keep(Neighbor(b, cell, dr, dc))) == AliveAt(b, p, q)
  {
    GolCell.CountAliveKeep(Neighbor(b, cell, dr, dc));
  }

  /** The row above or below (y, x) contributes its three cells. */
  lemma OuterRowLive(b: Board, y: int, x: int, dr: int, p: int)
    requires b.Valid() && b.InBounds(y, x) && dr != 0 && p == y + dr
    ensures GolCell.CountAlive(NeighborsInRow(b, b.cells[y][x], dr)) ==
      AliveAt(b, p, x - 1) + AliveAt(b, p, x) + AliveAt(b, p, x + 1)
  {
    var cell := b.cells[y][x];
    assert cell.row == y && cell.col == x;
    var s0, s1, s2 := Keep(Neighbor(b, cell, dr, 0)), Keep(Neighbor(b, cell, dr, -1)), Keep(Neighbor(b, cell, dr, 1));
    assert GolCell.CountAlive(NeighborsInRow(b, cell, dr)) ==
      GolCell.CountAlive(s0) + GolCell.CountAlive(s1) + GolCell.CountAlive(s2)
    by {
      GolCell.CountAliveThree(s0, s1, s2);
    }
    assert GolCell.CountAlive(s0) == AliveAt(b, p, x) by {
      NeighborLive(b, cell, dr, 0, p, x);
    }
    assert GolCell.CountAlive(s1) == AliveAt(b, p, x - 1) by {
      NeighborLive(b, cell, dr, -1, p, x - 1);
    }
    assert GolCell.CountAlive(s2) == AliveAt(b, p, x + 1) by {
      NeighborLive(b, cell, dr, 1, p, x + 1);
    }
  }

  /** The row of (y, x) contributes its left and right cells only. */
  lemma MiddleRowLive(b: Board, y: int, x: int)
    requires b.Valid() && b.InBounds(y, x)
    ensures GolCell.CountAlive(NeighborsInRow(b, b.cells[y][x], 0)) ==
      AliveAt(b, y, x - 1) + AliveAt(b, y, x + 1)
  {
    var cell := b.cells[y][x];
    assert cell.row == y && cell.col == x;
    var s0, s1, s2 := Keep(Neighbor(b, cell, 0, 0)), Keep(Neighbor(b, cell, 0, -1)), Keep(Neighbor(b, cell, 0, 1));
    assert GolCell.CountAlive(NeighborsInRow(b, cell, 0)) ==
      GolCell.CountAlive(s0) + GolCell.CountAlive(s1) + GolCell.CountAlive(s2)
    by {
      GolCell.CountAliveThree(s0, s1, s2);
    }
    assert GolCell.CountAlive(s0) == 0 by {
      assert s0 == [];
    }
    assert GolCell.CountAlive(s1) == AliveAt(b, y, x - 1) by {
      NeighborLive(b, cell, 0, -1, y, x - 1);
    }
    assert GolCell.CountAlive(s2) == AliveAt(b, y, x + 1) by {
      NeighborLive(b, cell, 0, 1, y, x + 1);
    }
  }

  /** Number of live cells among the eight positions around (y, x), read
      off the board. */
  function AroundAt(b: Board, y: int, x: int): nat
    requires b.Valid()
  {
    AliveAt(b, y - 1, x - 1) + AliveAt(b, y - 1, x) + AliveAt(b, y - 1, x + 1) +
    AliveAt(b, y, x - 1) + AliveAt(b, y, x + 1) +
    AliveAt(b, y + 1, x - 1) + AliveAt(b, y + 1, x) + AliveAt(b, y + 1, x + 1)
  }

  lemma NeighborsCountAround(b: Board, y: int, x: int)
    requires b.Valid() && b.InBounds(y, x)
    ensures GolCell.CountAlive(Neighbors(b, y, x)) == AroundAt(b, y, x)
  {
    var cell := b.cells[y][x];
    var r0 := NeighborsInRow(b, cell, 0);
    var r1 := NeighborsInRow(b, cell, -1);
    var r2 := NeighborsInRow(b, cell, 1);
    assert GolCell.CountAlive(Neighbors(b, y, x)) ==
      GolCell.CountAlive(r0) + GolCell.CountAlive(r1) + GolCell.CountAlive(r2)
    by {
      GolCell.CountAliveThree(r0, r1, r2);
    }
    MiddleRowLive(b, y, x);
    OuterRowLive(b, y, x, -1, y - 1);
    OuterRowLive(b, y, x, 1, y + 1);
  }

  lemma AroundIsLiveAround(b: Board, y: int, x: int)
    requires b.Valid()
    ensures AroundAt(b, y, x) == LiveAround(AliveGrid(b), y, x)
  {
    AliveAtIsLit(b, y - 1, x - 1);
    AliveAtIsLit(b, y - 1, x);
    AliveAtIsLit(b, y - 1, x + 1);
    AliveAtIsLit(b, y, x - 1);
    AliveAtIsLit(b, y, x + 1);
    AliveAtIsLit(b, y + 1, x - 1);
    AliveAtIsLit(b, y + 1, x);
    AliveAtIsLit(b, y + 1, x + 1);
  }

  /** Counting the live cells in `neighbors(y, x)` gives the number of live
      cells around (y, x) in the board's alive grid. */
  lemma NeighborsCountLive(b: Board, y: int, x: int)
    requires b.Valid() && b.InBounds(y, x)
    ensures GolCell.CountAlive(Neighbors(b, y, x)) == LiveAround(AliveGrid(b), y, x)
  {
    NeighborsCountAround(b, y, x);
    AroundIsLiveAround(b, y, x);
  }

  /** The vote a cell computes on a board whose alive grid is `g` is the
      cell's entry in the Life step of `g`. */
  lemma VoteIsStep(cur: Board, y: int, x: int, g: Grid)
    requires cur.Valid() && cur.InBounds(y, x) && AliveGrid(cur) == g
    ensures Rule(cur.cells[y][x].alive, GolCell.CountAlive(Neighbors(cur, y, x))) == LifeStep(g)[y][x]
  {
    NeighborsCountLive(cur, y, x);
    assert g[y][x] == cur.cells[y][x].alive;
  }

  /** Phase 1 on row y of `b`: each cell of the row votes, reading its
      neighbours on the board as it stands, with the row's earlier cells
      already holding their votes. */
  method VoteRow(b: Board, y: nat) returns (row: seq<Cell>)
    requires b.Valid() && y < b.numRows
    ensures |row| == b.numCols
    ensures forall j :: 0 <= j < b.numCols ==>
      && row[j].row == y && row[j].col == j && row[j].alive == b.cells[y][j].alive
      && row[j].nextState == Some(LifeStep(AliveGrid(b))[y][j])
  {
    ghost var want := LifeStep(AliveGrid(b))[y];
    row := b.cells[y];
    var x := 0;
    while x < b.numCols
      invariant 0 <= x <= b.numCols
      invariant SameFlags(b, y, row)
      invariant forall j :: 0 <= j < x ==> row[j].nextState == Some(want[j])
    {
      var cur := Board(b.numRows, b.numCols, b.cells[y := row]);
      VoteInRow(b, y, row, x);
      var c := GolCell.NextGeneration(row[x], Neighbors(cur, y, x));
      assert c == row[x].(nextState := Some(want[x]));
      VoteKeepsFlags(b, y, row, x, c);
      row := row[x := c];
      x := x + 1;
    }
  }

  /** `row` can stand in for row y of `b`: same length, same coordinates and
      the same `alive` flags (votes may differ). */
  predicate SameFlags(b: Board, y: nat, row: seq<Cell>)
    requires b.Valid() && y < b.numRows
  {
    && |row| == b.numCols
    && forall j :: 0 <= j < b.numCols ==>
      row[j].row == y && row[j].col == j && row[j].alive == b.cells[y][j].alive
  }

  /** Storing a vote in a row leaves its coordinates and flags as they were. */
  lemma VoteKeepsFlags(b: Board, y: nat, row: seq<Cell>, x: nat, c: Cell)
    requires b.Valid() && y < b.numRows && x < b.numCols && SameFlags(b, y, row)
    requires c == row[x].(nextState := c.nextState)
    ensures SameFlags(b, y, row[x := c])
  {
  }

  /** The vote cell (y, x) computes while row y is being rewritten: the
      board with the partial row in place is valid, and the vote is the
      cell's entry in the Life step of the original grid. */
  lemma VoteInRow(b: Board, y: nat, row: seq<Cell>, x: nat)
    requires b.Valid() && y < b.numRows && x < b.numCols && SameFlags(b, y, row)
    ensures Board(b.numRows, b.numCols, b.cells[y := row]).Valid()
    ensures GolCell.NextGeneration(row[x], Neighbors(Board(b.numRows, b.numCols, b.cells[y := row]), y, x))
      == row[x].(nextState := Some(LifeStep(AliveGrid(b))[y][x]))
  {
    var cur := Board(b.numRows, b.numCols, b.cells[y := row]);
    ReplaceRow(b, y, row);
    VoteIsStep(cur, y, x, AliveGrid(b));
  }

  /** Replacing row y by a row with the same coordinates and `alive` flags
      keeps the board valid and its alive grid unchanged. */
  lemma ReplaceRow(b: Board, y: nat, row: seq<Cell>)
    requires b.Valid() && y < b.numRows && SameFlags(b, y, row)
    ensures Board(b.numRows, b.numCols, b.cells[y := row]).Valid()
    ensures AliveGrid(Board(b.numRows, b.numCols, b.cells[y := row])) == AliveGrid(b)
  {
    SameAliveGrid(Board(b.numRows, b.numCols, b.cells[y := row]), b);
  }

  /** Phase 1: every cell votes from the neighbours' `alive` flags. Votes only
      touch `nextState`, so the flags every later cell reads are still the
      pre-tick ones and each vote is the synchronous Life step of the
      pre-tick grid. */
  method ComputeVotes(b: Board) returns (v: Board)
    requires b.Valid()
    ensures v.Valid() && v.numRows == b.numRows && v.numCols == b.numCols
    ensures AliveGrid(v) == AliveGrid(b)
    ensures forall i, j :: v.InBounds(i, j) ==>
      v.cells[i][j].nextState == Some(LifeStep(AliveGrid(b))[i][j])
  {
    ghost var g := AliveGrid(b);
    var cells := b.cells;
    var y := 0;
    while y < b.numRows
      invariant 0 <= y <= b.numRows
      invariant Board(b.numRows, b.numCols, cells).Valid()
      invariant forall i, j :: b.InBounds(i, j) ==> cells[i][j].alive == b.cells[i][j].alive
      invariant forall i, j :: 0 <= i < y && 0 <= j < b.numCols ==>
        cells[i][j].nextState == Some(LifeStep(g)[i][j])
    {
      SameAliveGrid(Board(b.numRows, b.numCols, cells), b);
      var row := VoteRow(Board(b.numRows, b.numCols, cells), y);
      cells := cells[y := row];
      y := y + 1;
    }
    v := Board(b.numRows, b.numCols, cells);
    SameAliveGrid(v, b);
  }

  /** `row` is row y of `b` with every vote committed and cleared. */
  predicate RowApplied(b: Board, y: int, row: seq<Cell>)
    requires b.Valid() && 0 <= y < b.numRows
  {
    && |row| == b.numCols
    && forall j :: 0 <= j < b.numCols ==>
      && row[j].row == y && row[j].col == j
      && row[j].alive == Committed(b)[y][j] && row[j].nextState.None?
  }

  /** Phase 2 on row y: every cell of the row commits its vote; the count is
      the number of cells in the row whose flag flipped. */
  method ApplyRow(b: Board, y: nat) returns (row: seq<Cell>, changes: nat)
    requires b.Valid() && y < b.numRows
    ensures RowApplied(b, y, row)
    ensures changes == RowDiff(AliveGrid(b)[y], Committed(b)[y], b.numCols)
  {
    ghost var g := AliveGrid(b)[y];
    ghost var t := Committed(b)[y];
    row := b.cells[y];
    changes := 0;
    var x := 0;
    while x < b.numCols
      invariant 0 <= x <= b.numCols
      invariant |row| == b.numCols
      invariant forall j :: 0 <= j < b.numCols ==> row[j].row == y && row[j].col == j
      invariant forall j :: 0 <= j < x ==> row[j].alive == t[j] && row[j].nextState.None?
      invariant forall j :: x <= j < b.numCols ==> row[j] == b.cells[y][j]
      invariant changes == RowDiff(g, t, x)
    {
      var u := GolCell.UpdateGeneration(row[x]);
      if u.changed == Some(true) {
        changes := changes + 1;
      }
      row := row[x := u.cell];
      x := x + 1;
    }
  }

  /** Phase 2: every cell commits its vote; the returned count is the number
      of cells whose `alive` flag the commit flipped. */
  method ApplyVotes(b: Board) returns (a: Board, changes: nat)
    requires b.Valid()
    ensures a.Valid() && a.numRows == b.numRows && a.numCols == b.numCols
    ensures a.NoPending()
    ensures AliveGrid(a) == Committed(b)
    ensures SameShape(AliveGrid(b), AliveGrid(a))
    ensures changes == DiffCount(AliveGrid(b), AliveGrid(a))
  {
    ghost var g := AliveGrid(b);
    ghost var t := Committed(b);
    assert SameShape(g, t) && |g| == b.numRows;
    var cells := b.cells;
    changes := 0;
    var y := 0;
    while y < b.numRows
      invariant 0 <= y <= b.numRows
      invariant |cells| == b.numRows
      invariant forall i :: 0 <= i < y ==> RowApplied(b, i, cells[i])
      invariant changes == GridDiff(g, t, y)
    {
      var row, n := ApplyRow(b, y);
      cells := cells[y := row];
      AppliedPrefix(b, cells, y);
      changes := changes + n;
      y := y + 1;
    }
    a := Board(b.numRows, b.numCols, cells);
    AllRowsApplied(a, b);
  }

  /** Storing one more applied row extends the applied prefix by one. */
  lemma AppliedPrefix(b: Board, cells: seq<seq<Cell>>, y: nat)
    requires b.Valid() && y < b.numRows && |cells| == b.numRows
    requires forall i :: 0 <= i < y ==> RowApplied(b, i, cells[i])
    requires RowApplied(b, y, cells[y])
    ensures forall i :: 0 <= i < y + 1 ==> RowApplied(b, i, cells[i])
  {
  }

  lemma AllRowsApplied(a: Board, b: Board)
    requires b.Valid() && a.numRows == b.numRows && a.numCols == b.numCols
    requires |a.cells| == b.numRows
    requires forall i :: 0 <= i < b.numRows ==> RowApplied(b, i, a.cells[i])
    ensures a.Valid() && a.NoPending()
    ensures AliveGrid(a) == Committed(b)
    ensures SameShape(AliveGrid(b), AliveGrid(a))
  {
    forall i | 0 <= i < b.numRows
      ensures AliveGrid(a)[i] == Committed(b)[i]
    {
      assert RowApplied(b, i, a.cells[i]);
    }
  }

  /** One generation: votes from the pre-tick grid, then commits. The board
      ends in the synchronous Life step of the pre-tick grid with no pending
      votes, and the count is the number of cells that differ between the
      two grids; it is 0 exactly when the grid is a fixed point. */
  method NextGeneration(b: Board) returns (next: Board, changes: nat)
    requires b.Valid()
    ensures next.Valid() && next.numRows == b.numRows && next.numCols == b.numCols
    ensures next.NoPending()
    ensures AliveGrid(next) == LifeStep(AliveGrid(b))
    ensures SameShape(AliveGrid(b), AliveGrid(next))
    ensures changes == DiffCount(AliveGrid(b), AliveGrid(next))
    ensures changes <= b.numRows * b.numCols
    ensures changes == 0 <==> AliveGrid(next) == AliveGrid(b)
  {
    var voted := ComputeVotes(b);
    next, changes := ApplyVotes(voted);
    ghost var g := AliveGrid(b);
    forall i | 0 <= i < b.numRows
      ensures Committed(voted)[i] == LifeStep(g)[i]
    {
    }
    DiffCountBound(g, AliveGrid(next), b.numRows, b.numCols);
    DiffCountZeroIffEqual(g, AliveGrid(next));
  }

  /** Reseed: cell [y][x] becomes alive iff both bits drawn for it are 1.
      Coordinates and pending votes are left as they were. */
  method RandomStart(b: Board, coins: seq<seq<(bool, bool)>>) returns (r: Board)
    requires b.Valid()
    requires |coins| == b.numRows && forall i :: 0 <= i < b.numRows ==> |coins[i]| == b.numCols
    ensures r.Valid() && r.numRows == b.numRows && r.numCols == b.numCols
    ensures forall i, j :: r.InBounds(i, j) ==>
      && r.cells[i][j].alive == (coins[i][j].0 && coins[i][j].1)
      && r.cells[i][j].nextState == b.cells[i][j].nextState
  {
    var cells := b.cells;
    var y := 0;
    while y < b.numRows
      invariant 0 <= y <= b.numRows
      invariant Board(b.numRows, b.numCols, cells).Valid()
      invariant forall i, j :: b.InBounds(i, j) ==> cells[i][j].nextState == b.cells[i][j].nextState
      invariant forall i, j :: 0 <= i < y && 0 <= j < b.numCols ==>
        cells[i][j].alive == (coins[i][j].0 && coins[i][j].1)
    {
      var x := 0;
      while x < b.numCols
        invariant 0 <= x <= b.numCols
        invariant Board(b.numRows, b.numCols, cells).Valid()
        invariant forall i, j :: b.InBounds(i, j) ==> cells[i][j].nextState == b.cells[i][j].nextState
        invariant forall i, j :: 0 <= i < y && 0 <= j < b.numCols ==>
          cells[i][j].alive == (coins[i][j].0 && coins[i][j].1)
        invariant forall j :: 0 <= j < x ==> cells[y][j].alive == (coins[y][j].0 && coins[y][j].1)
      {
        var (alive1, alive2) := coins[y][x];
        var a := GolCell.SetAlive(cells[y][x], alive1 && alive2);
        cells := cells[y := cells[y][x := a.cell]];
        x := x + 1;
      }
      y := y + 1;
    }
    r := Board(b.numRows, b.numCols, cells);
  }
}
