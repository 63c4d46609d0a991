/**
 The top-level loop: a flag that asks for a fresh random board. A tick either
 reseeds (and clears the flag) or steps the board once, raising the flag
 again when the step changed nothing. Pacing and logging are left out.
 */
module Driver {
  import opened Life
  import GolBoard

  datatype Driver = Driver(createNewBoard: bool, board: GolBoard.Board)

  /** The program's initial state: a 20 x 30 board and a pending reseed. */
  function Start(): (d: Driver)
    ensures d.createNewBoard
    ensures d.board.Valid() && d.board.numRows == 20 && d.board.numCols == 30
    ensures d.board.NoPending()
  {
    Driver(true, GolBoard.New(20, 30))
  }

  /** One tick of the loop. `coins` are the bits a reseed would draw. */
  method Tick(d: Driver, coins: seq<seq<(bool, bool)>>) returns (next: Driver)
    requires d.board.Valid()
    requires |coins| == d.board.numRows
    requires forall i :: 0 <= i < d.board.numRows ==> |coins[i]| == d.board.numCols
    ensures next.board.Valid()
    ensures next.board.numRows == d.board.numRows && next.board.numCols == d.board.numCols
    ensures d.board.NoPending() ==> next.board.NoPending()
    ensures d.createNewBoard ==>
      && !next.createNewBoard
      && forall i, j :: d.board.InBounds(i, j) ==>
           && next.board.cells[i][j].alive == (coins[i][j].0 && coins[i][j].1)
           && next.board.cells[i][j].nextState == d.board.cells[i][j].nextState
    ensures !d.createNewBoard ==>
      && GolBoard.AliveGrid(next.board) == LifeStep(GolBoard.AliveGrid(d.board))
      && (next.createNewBoard <==> LifeStep(GolBoard.AliveGrid(d.board)) == GolBoard.AliveGrid(d.board))
  {
    if d.createNewBoard {
      var b := GolBoard.RandomStart(d.board, coins);
      next := Driver(false, b);
    } else {
      var b, numChanges := GolBoard.NextGeneration(d.board);
      next := Driver(numChanges == 0, b);
    }
  }
}
