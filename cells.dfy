/** Squares of the 8x8 board and the text form of a move ("e2e4"). */
module Cells {

  datatype Option<T> = None | Some(value: T)

  /** A square. `file` 0..7 stands for the letters 'a'..'h', `rank` is the rank
      number 1..8. Coordinates outside those ranges name squares off the board:
      the board's occupancy map has no entry for them. */
  datatype Cell = Cell(file: int, rank: int)

  predicate InBounds(c: Cell) {
    0 <= c.file < 8 && 1 <= c.rank <= 8
  }

  predicate IsFileChar(ch: char) { 'a' <= ch <= 'h' }

  predicate IsRankChar(ch: char) { '1' <= ch <= '8' }

  /** A whole cell id matches the pattern [a-h][1-8]. */
  predicate IsCellWithinBoardBounds(id: string) {
    |id| == 2 && IsFileChar(id[0]) && IsRankChar(id[1])
  }

  /** A whole move text matches the pattern [a-h][1-8][a-h][1-8]. */
  predicate IsStartAndTargetWithinBoardBounds(input: string) {
    |input| == 4 && IsCellWithinBoardBounds(input[..2]) && IsCellWithinBoardBounds(input[2..])
  }

  /** The id of a square at most one file or rank off the board: its file letter
      followed by its rank digit. Testing that id against [a-h][1-8] is the same as
      testing the coordinates, which is what lets the board use coordinates where
      ids are built by character arithmetic and matched against the pattern. */
  function CellName(c: Cell): (id: string)
    requires -1 <= c.file <= 8 && 0 <= c.rank <= 9
    ensures |id| == 2
    ensures IsCellWithinBoardBounds(id) <==> InBounds(c)
  {
    [('a' as int + c.file) as char, ('0' as int + c.rank) as char]
  }

  /** The square a well-formed cell id names; naming it again gives the id back. */
  function CellOf(id: string): (c: Cell)
    requires IsCellWithinBoardBounds(id)
    ensures InBounds(c) && CellName(c) == id
  {
    Cell(id[0] as int - 'a' as int, id[1] as int - '0' as int)
  }

  /** Distinct squares of the board have distinct ids. */
  lemma CellNameInjective(c: Cell, d: Cell)
    requires InBounds(c) && InBounds(d) && CellName(c) == CellName(d)
    ensures c == d
  {
    assert CellName(c)[0] == CellName(d)[0];
    assert CellName(c)[1] == CellName(d)[1];
  }

  /** Start and target squares of a move text; None when the text does not match
      the pattern. The two ids read back to exactly the text. */
  function ParseMove(input: string): (move: Option<(Cell, Cell)>)
    ensures move.Some? <==> IsStartAndTargetWithinBoardBounds(input)
    ensures move.Some? ==>
      && InBounds(move.value.0) && InBounds(move.value.1)
      && CellName(move.value.0) + CellName(move.value.1) == input
  {
    if IsStartAndTargetWithinBoardBounds(input) then
      assert input == input[..2] + input[2..];
      Some((CellOf(input[..2]), CellOf(input[2..])))
    else
      None
  }

  /** Every move between two squares of the board is read back from its text. */
  lemma ParseMoveName(start: Cell, target: Cell)
    requires InBounds(start) && InBounds(target)
    ensures ParseMove(CellName(start) + CellName(target)) == Some((start, target))
  {
    var input := CellName(start) + CellName(target);
    assert input[..2] == CellName(start) && input[2..] == CellName(target);
    CellNameInjective(CellOf(input[..2]), start);
    CellNameInjective(CellOf(input[2..]), target);
  }

  /** A text passes the cell-bounds check exactly when it is the id of a square of the board. */
  lemma CellIdsAreSquareNames(id: string)
    ensures IsCellWithinBoardBounds(id) <==> exists c :: InBounds(c) && CellName(c) == id
  {
    if IsCellWithinBoardBounds(id) {
      assert InBounds(CellOf(id)) && CellName(CellOf(id)) == id;
    }
  }

  /** A text passes the move-bounds check exactly when it is the ids of two squares of
      the board put together. */
  lemma MoveTextsAreSquarePairs(input: string)
    ensures IsStartAndTargetWithinBoardBounds(input) <==>
      exists start, target :: InBounds(start) && InBounds(target) && CellName(start) + CellName(target) == input
  {
    if IsStartAndTargetWithinBoardBounds(input) {
      var (start, target) := ParseMove(input).value;
      assert InBounds(start) && InBounds(target) && CellName(start) + CellName(target) == input;
    }
    if exists start, target :: InBounds(start) && InBounds(target) && CellName(start) + CellName(target) == input {
      var start, target :| InBounds(start) && InBounds(target) && CellName(start) + CellName(target) == input;
      ParseMoveName(start, target);
    }
  }

  /** The sentinel "exit" is never read as a move. */
  lemma ExitIsNotAMove()
    ensures ParseMove("exit").None?
  {
    assert "exit"[..2][0] == 'e' && !IsRankChar("exit"[..2][1]);
  }
}
