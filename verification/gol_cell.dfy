/**
 One cell of the board: fixed coordinates, the `alive` flag, and the vote for
 the next generation that is computed in one phase and committed in the next.
 The on-screen square is reduced to the show/hide event an assignment to
 `alive` triggers.
 */
module GolCell {
  import opened Wrappers
  import Life

  datatype Cell = Cell(row: int, col: int, alive: bool, nextState: Option<bool>)

  /** What an assignment to `alive` asks of the visual: show the square when
      the cell comes to life, hide it when the cell dies. */
  datatype VisualOp = Show | Hide

  /** The cell after an assignment to `alive`, and the visual event it fired. */
  datatype Assigned = Assigned(cell: Cell, visual: Option<VisualOp>)

  /** The cell after committing its vote; `changed` is Ruby's return value
      (`nil` when there was no vote), `visual` the event the commit fired. */
  datatype Updated = Updated(cell: Cell, changed: Option<bool>, visual: Option<VisualOp>)

  /** A fresh cell at (row, col): dead, with no pending vote. */
  function New(row: int, col: int): (c: Cell)
    ensures c.row == row && c.col == col
    ensures !c.alive && c.nextState == None
  {
    Cell(row, col, false, None)
  }

  /** Number of live cells in `cells`. */
  function CountAlive(cells: seq<Cell>): (n: nat)
    ensures n <= |cells|
  {
    if |cells| == 0 then 0
    else CountAlive(cells[..|cells| - 1]) + (if cells[|cells| - 1].alive then 1 else 0)
  }

  lemma {:induction false} CountAliveAppend(a: seq<Cell>, b: seq<Cell>)
    ensures CountAlive(a + b) == CountAlive(a) + CountAlive(b)
  {
    if |b| > 0 {
      assert (a + b)[..|a + b| - 1] == a + b[..|b| - 1];
      CountAliveAppend(a, b[..|b| - 1]);
    } else {
      assert a + b == a;
    }
  }

  lemma CountAliveKeep(o: Option<Cell>)
    ensures CountAlive(Keep(o)) == if o.Some? && o.value.alive then 1 else 0
  {
    if o.Some? {
      assert Keep(o)[..0] == [];
    }
  }

  lemma CountAliveThree(s0: seq<Cell>, s1: seq<Cell>, s2: seq<Cell>)
    ensures CountAlive(s0 + s1 + s2) == CountAlive(s0) + CountAlive(s1) + CountAlive(s2)
  {
    CountAliveAppend(s0, s1);
    CountAliveAppend(s0 + s1, s2);
  }

  /** Assign `alive`. Assigning the current value changes nothing and fires no
      visual event; a real change fires Show or Hide. */
  function SetAlive(c: Cell, value: bool): (r: Assigned)
    ensures r.cell.alive == value
    ensures r.cell.row == c.row && r.cell.col == c.col && r.cell.nextState == c.nextState
    ensures value == c.alive ==> r.cell == c
    ensures r.visual.Some? <==> value != c.alive
    ensures r.visual == Some(Show) <==> !c.alive && value
    ensures r.visual == Some(Hide) <==> c.alive && !value
  {
    if value == c.alive then Assigned(c, None)
    else Assigned(c.(alive := value), Some(if value then Show else Hide))
  }

  /** Assigning the value a cell already has is a no-op, so assigning the same
      value twice fires at most one visual event. */
  lemma SetAliveTwice(c: Cell, value: bool)
    ensures SetAlive(SetAlive(c, value).cell, value) == Assigned(SetAlive(c, value).cell, None)
  {
  }

  /** Compute the vote from the neighbours' `alive` flags. Only the vote
      changes; `alive` and the coordinates stay as they are. */
  function NextGeneration(c: Cell, neighbors: seq<Cell>): (r: Cell)
    ensures r.row == c.row && r.col == c.col && r.alive == c.alive
    ensures r.nextState == Some(Life.Rule(c.alive, CountAlive(neighbors)))
  {
    var n := CountAlive(neighbors);
    c.(nextState := Some(if c.alive then n == 2 || n == 3 else n == 3))
  }

  /** A live cell survives on two or three live neighbours; a dead cell is
      born on exactly three. */
  lemma VoteCases(c: Cell, neighbors: seq<Cell>)
    ensures c.alive ==>
      (NextGeneration(c, neighbors).nextState == Some(true) <==> CountAlive(neighbors) in {2, 3})
    ensures !c.alive ==>
      (NextGeneration(c, neighbors).nextState == Some(true) <==> CountAlive(neighbors) == 3)
  {
  }

  /** Commit the pending vote and clear it, reporting whether `alive`
      changed; with no pending vote return `nil` and leave the cell alone. */
  function UpdateGeneration(c: Cell): (r: Updated)
    ensures c.nextState.None? ==> r == Updated(c, None, None)
    ensures c.nextState.Some? ==>
      && r.cell.alive == c.nextState.value
      && r.cell.nextState.None?
      && r.cell.row == c.row && r.cell.col == c.col
      && r.changed.Some?
    ensures r.changed == Some(true) <==> r.cell.alive != c.alive
    ensures r.visual.Some? <==> r.changed == Some(true)
  {
    match c.nextState
    case None => Updated(c, None, None)
    case Some(next) =>
      var stateChanged := c.alive != next;
      var a := SetAlive(c, next);
      Updated(a.cell.(nextState := None), Some(stateChanged), a.visual)
  }

  /** A commit leaves no vote behind, so committing again is a no-op that
      returns `nil`. */
  lemma UpdateTwiceIsNoOp(c: Cell)
    ensures UpdateGeneration(c).cell.nextState.None?
    ensures UpdateGeneration(UpdateGeneration(c).cell) == Updated(UpdateGeneration(c).cell, None, None)
  {
  }
}
