/** A pawn and the side that owns it. */
module Pawns {
  import opened Cells

  /** The owner of a pawn. The first player plays White, the second Black; a
      player's side never changes during a game. */
  datatype Side = White | Black

  function Opponent(side: Side): Side {
    if side == White then Black else White
  }

  /** The symbol a side's pawns carry on the board. */
  function SymbolOf(side: Side): char {
    if side == White then 'W' else 'B'
  }

  /** The rank step of a pawn with this symbol: 'B' moves down, any other symbol up. */
  function Direction(symbol: char): int {
    if symbol == 'B' then -1 else 1
  }

  /** A pawn. Owner and symbol are fixed at creation; the board updates the
      square, the move counter and the last-moved flag in place. */
  class Pawn {
    const player: Side
    const symbol: char
    var cellID: Cell
    var movesDone: nat
    var wasLastMovedPawn: bool

    constructor (player: Side, symbol: char, cellID: Cell)
      ensures this.player == player && this.symbol == symbol && this.cellID == cellID
      ensures movesDone == 0 && !wasLastMovedPawn
    {
      this.player := player;
      this.symbol := symbol;
      this.cellID := cellID;
      movesDone := 0;
      wasLastMovedPawn := false;
    }
  }
}
