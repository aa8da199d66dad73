/** The pawn-move rule engine: board occupancy, the pawn registry, move
    validation and execution, and the end-of-game conditions. */
module Chess {
  import opened Cells
  import opened Pawns

  /** What one call of ExecuteMove reports. The end of the game (a pawn on its
      final rank, or no pawn of the opponent left in the registry) is a result
      here, with the side that won. */
  datatype TurnResult = Exit | InvalidMove | SuccessfulMove | GameOver(winner: Side) {
    /** The move was carried out (whether or not it ended the game). */
    predicate Moved() { SuccessfulMove? || GameOver? }
  }

  /** The side announced as winner for a pawn symbol: 'W' wins for White, any other for Black. */
  function Winner(symbol: char): (winner: Side)
    ensures forall side :: symbol == SymbolOf(side) ==> winner == side
  {
    if symbol == 'W' then White else Black
  }

  predicate Distinct<T(==)>(s: seq<T>) {
    forall i, j :: 0 <= i < j < |s| ==> s[i] != s[j]
  }

  /** Removing an element from a list: its first occurrence goes, the rest keeps
      its order; a list without the element is left as it is. */
  function RemoveFirst<T(==)>(s: seq<T>, x: T): (r: seq<T>)
    ensures x in s ==> |r| == |s| - 1
    ensures x !in s ==> r == s
    ensures forall y :: y in r ==> y in s
    ensures forall y :: y != x && y in s ==> y in r
    ensures Distinct(s) ==> Distinct(r) && x !in r
  {
    if s == [] then []
    else if s[0] == x then
      assert s == [s[0]] + s[1..];
      s[1..]
    else
      assert s == [s[0]] + s[1..];
      var rest := RemoveFirst(s[1..], x);
      assert Distinct(s) ==> s[0] !in s[1..] && s[0] !in rest;
      [s[0]] + rest
  }

  /** The removal takes out exactly one occurrence of the element, if there is one. */
  lemma {:induction false} RemoveFirstContents<T>(s: seq<T>, x: T)
    ensures multiset(RemoveFirst(s, x)) == multiset(s) - multiset{x}
  {
    if s == [] {
    } else {
      assert s == [s[0]] + s[1..];
      if s[0] != x {
        RemoveFirstContents(s[1..], x);
        assert RemoveFirst(s, x) == [s[0]] + RemoveFirst(s[1..], x);
      }
    }
  }

  /** The removal keeps the order of the remaining elements: with the first
      occurrence of the element at position i, what is left is the list with that
      one position cut out. */
  lemma {:induction false} RemoveFirstOrder<T>(s: seq<T>, x: T, i: int)
    requires 0 <= i < |s| && s[i] == x && x !in s[..i]
    ensures RemoveFirst(s, x) == s[..i] + s[i + 1..]
  {
    if i == 0 {
      assert s[..0] == [];
    } else {
      assert s[0] == s[..i][0];
      assert s[1..][..i - 1] == s[1..i];
      RemoveFirstOrder(s[1..], x, i - 1);
      assert s[..i] == [s[0]] + s[1..i];
      assert s[1..][i..] == s[i + 1..];
    }
  }

  /** No pawn of the list belongs to the side. */
  predicate NoneOwnedBy(s: seq<Pawn>, side: Side): (none: bool)
    ensures none <==> forall p :: p in s ==> p.player != side
  {
    if s == [] then true
    else
      assert s == [s[0]] + s[1..];
      s[0].player != side && NoneOwnedBy(s[1..], side)
  }

  class Board {
    /** Occupancy: every square of the board has an entry, null when empty. */
    var cells: map<Cell, Pawn?>
    /** The registry of pawns in the game. */
    var pawns: seq<Pawn>

    /** The square holds a pawn of the side that has not moved and is not flagged. */
    ghost predicate HoldsNewPawn(c: Cell, side: Side)
      reads this, cells.Values
    {
      var pawn := Occupant(c);
      pawn != null && pawn.player == side && pawn.symbol == SymbolOf(side)
      && pawn.movesDone == 0 && !pawn.wasLastMovedPawn
    }

    /** The setup: file by file from 'a' to 'h', rank by rank from 8 down to 1, a new
        black pawn on rank 7 and a new white pawn on rank 2, every other square
        empty. The registry lists the sixteen pawns in that order. */
    constructor ()
      ensures Valid()
      ensures forall c :: InBounds(c) && c.rank == 2 ==> HoldsNewPawn(c, White)
      ensures forall c :: InBounds(c) && c.rank == 7 ==> HoldsNewPawn(c, Black)
      ensures forall c :: InBounds(c) && c.rank != 2 && c.rank != 7 ==> Occupant(c) == null
      ensures |pawns| == 16
      ensures forall f :: 0 <= f < 8 ==> pawns[2 * f] == Occupant(Cell(f, 7)) && pawns[2 * f + 1] == Occupant(Cell(f, 2))
      ensures forall p :: p in pawns ==> fresh(p)
    {
      cells := map[];
      pawns := [];
      new;
      var column := 0;
      while column < 8
        invariant 0 <= column <= 8
        invariant forall c :: c in cells <==> InBounds(c) && c.file < column
        invariant forall c :: c in cells ==> SetUp(c)
        invariant |pawns| == 2 * column
        invariant forall p :: p in pawns ==> fresh(p)
      {
        SetUpFile(column);
        column := column + 1;
      }
      SetUpIsValid();
    }

    /** The inner loop of the setup: the squares of one file, rank 8 down to rank 1. */
    method SetUpFile(column: int)
      requires 0 <= column < 8
      requires forall c :: c in cells <==> InBounds(c) && c.file < column
      requires forall c :: c in cells ==> SetUp(c)
      requires |pawns| == 2 * column
      modifies this
      ensures forall c :: c in cells <==> InBounds(c) && c.file < column + 1
      ensures forall c :: c in cells ==> SetUp(c)
      ensures |pawns| == 2 * (column + 1)
      ensures forall p :: p in pawns ==> p in old(pawns) || fresh(p)
    {
      var row := 8;
      while row >= 1
        invariant 0 <= row <= 8
        invariant forall c :: c in cells <==> InBounds(c) && (c.file < column || (c.file == column && c.rank > row))
        invariant forall c :: c in cells ==> SetUp(c)
        invariant |pawns| == 2 * column + (if row < 2 then 2 else if row < 7 then 1 else 0)
        invariant forall p :: p in pawns ==> p in old(pawns) || fresh(p)
      {
        PlaceSquare(column, row);
        row := row - 1;
      }
    }

    /** The body of the setup loops: the content of the square chosen by its rank, a
        new pawn added to the registry, and the square's entry written. */
    method PlaceSquare(column: int, row: int)
      requires 0 <= column < 8 && 1 <= row <= 8 && Cell(column, row) !in cells
      requires |pawns| == 2 * column + (if row < 2 then 2 else if row < 7 then 1 else 0)
      modifies this
      ensures cells.Keys == old(cells).Keys + {Cell(column, row)}
      ensures forall c :: c in old(cells) && old(SetUp(c)) ==> SetUp(c)
      ensures SetUp(Cell(column, row))
      ensures |pawns| == old(|pawns|) + (if row == 7 || row == 2 then 1 else 0)
      ensures forall p :: p in pawns ==> p in old(pawns) || fresh(p)
    {
      var cellID := Cell(column, row);
      var cellContent: Pawn? := null;
      if row == 7 {
        cellContent := new Pawn(Black, 'B', cellID);
      } else if row == 2 {
        cellContent := new Pawn(White, 'W', cellID);
      }
      if cellContent != null {
        pawns := pawns + [cellContent];
      }
      cells := cells[cellID := cellContent];
    }

    /** A pawn as setup creates it: symbol matching its side, on the board, unmoved, not flagged. */
    ghost predicate NewPawn(p: Pawn)
      reads p
    {
      p.symbol == SymbolOf(p.player) && InBounds(p.cellID) && p.movesDone == 0 && !p.wasLastMovedPawn
    }

    /** The square has its starting content: on ranks 7 and 2 a new pawn of the
        right side that records this square and is listed, black before white, at
        its file's place in the registry; nothing elsewhere. */
    ghost predicate SetUp(c: Cell)
      reads this, cells.Values
    {
      if c.rank == 2 || c.rank == 7 then
        var pawn := Occupant(c);
        var index := 2 * c.file + (if c.rank == 7 then 0 else 1);
        && pawn != null && pawn.player == (if c.rank == 2 then White else Black)
        && pawn.cellID == c && NewPawn(pawn)
        && 0 <= index < |pawns| && pawns[index] == pawn
      else
        Occupant(c) == null
    }

    /** Once every file is set up the board is valid and the registry is in setup order. */
    lemma SetUpIsValid()
      requires forall c :: c in cells <==> InBounds(c)
      requires forall c :: c in cells ==> SetUp(c)
      requires |pawns| == 16
      ensures Valid()
      ensures forall f :: 0 <= f < 8 ==> pawns[2 * f] == Occupant(Cell(f, 7)) && pawns[2 * f + 1] == Occupant(Cell(f, 2))
    {
      forall i | 0 <= i < |pawns|
        ensures NewPawn(pawns[i]) && pawns[i].cellID == Cell(i / 2, if i % 2 == 0 then 7 else 2)
      {
        assert SetUp(Cell(i / 2, if i % 2 == 0 then 7 else 2));
      }
      forall i, j | 0 <= i < j < |pawns|
        ensures pawns[i] != pawns[j]
      {
        assert pawns[i].cellID != pawns[j].cellID;
      }
      forall c | c in cells && cells[c] != null
        ensures cells[c] in pawns && cells[c].cellID == c
      {
        assert SetUp(c);
      }
      forall f | 0 <= f < 8
        ensures pawns[2 * f] == Occupant(Cell(f, 7)) && pawns[2 * f + 1] == Occupant(Cell(f, 2))
      {
        assert SetUp(Cell(f, 7)) && SetUp(Cell(f, 2));
      }
    }

    /** The invariant the engine keeps. Every square on the board, and only those,
        has an entry; an occupant is in the registry and its own square is the one
        it occupies (so no pawn occupies two squares); the registry has no
        repetitions and only pawns whose symbol matches their side; at most one
        pawn per side in the registry carries the last-moved flag.
        A pawn of the registry need not occupy a square: the victim of an en
        passant capture leaves the board but stays in the registry. */
    ghost predicate Valid()
      reads this, pawns, cells.Values
    {
      && (forall c :: c in cells <==> InBounds(c))
      && (forall c :: c in cells && cells[c] != null ==> cells[c] in pawns && cells[c].cellID == c)
      && Distinct(pawns)
      && (forall p :: p in pawns ==> p.symbol == SymbolOf(p.player) && InBounds(p.cellID))
      && (forall p, q ::
            p in pawns && q in pawns && p.player == q.player && p.wasLastMovedPawn && q.wasLastMovedPawn ==> p == q)
    }

    /** The content of a square; a square without an entry is empty. */
    function Occupant(c: Cell): Pawn?
      reads this
    {
      if c in cells then cells[c] else null
    }

    /** The forward rule: an empty square in the pawn's own file one rank ahead
        in its direction, or two ranks ahead while the pawn has not moved yet.
        The square in between is not consulted. */
    ghost predicate IsForwardTarget(pawn: Pawn, t: Cell)
      reads this, pawn
    {
      && t.file == pawn.cellID.file
      && Occupant(t) == null
      && var ahead := (t.rank - pawn.cellID.rank) * Direction(pawn.symbol);
         ahead == 1 || (ahead == 2 && pawn.movesDone == 0)
    }

    /** The capture rule: a square on the board one rank ahead in the pawn's
        direction and one file aside, which either holds a pawn of the other
        colour, or whose square beside the pawn (same file, the pawn's rank) holds
        a pawn of the other colour that has made exactly one move and was its
        side's last moved pawn. The second case does not ask the target to be empty. */
    ghost predicate IsCaptureTarget(pawn: Pawn, t: Cell)
      reads this, pawn, cells.Values
    {
      var start := pawn.cellID;
      var other := if pawn.symbol == 'B' then 'W' else 'B';
      && InBounds(t)
      && (t.file == start.file - 1 || t.file == start.file + 1)
      && t.rank == start.rank + Direction(pawn.symbol)
      && (|| (Occupant(t) != null && Occupant(t).symbol == other)
          || var beside := Occupant(Cell(t.file, start.rank));
             beside != null && beside.symbol == other && beside.movesDone == 1 && beside.wasLastMovedPawn)
    }

    /** The squares the pawn may advance to: the double step first, then the single step. */
    function FetchPossibleMoveTargetsFor(pawn: Pawn): (targets: seq<Cell>)
      reads this, pawn
      ensures |targets| <= 2 && Distinct(targets)
      ensures forall t :: t in targets <==> IsForwardTarget(pawn, t)
    {
      var start := pawn.cellID;
      var step := Direction(pawn.symbol);
      var twoFieldMoveTarget := Cell(start.file, start.rank + 2 * step);
      var oneFieldMoveTarget := Cell(start.file, start.rank + step);
      (if pawn.movesDone == 0 && Occupant(twoFieldMoveTarget) == null then [twoFieldMoveTarget] else [])
      + (if Occupant(oneFieldMoveTarget) == null then [oneFieldMoveTarget] else [])
    }

    /** A white pawn stands on the square, or one rank above it stands a white pawn
        with exactly one move done that was its side's last moved pawn. A single
        step as first move qualifies as well as a double step. */
    predicate IsWhitePawnOnTargetCell(targetCell: Cell)
      reads this, cells.Values
    {
      var pawn := Occupant(targetCell);
      || (pawn != null && pawn.symbol == 'W')
      || var enPassantPawn := Occupant(Cell(targetCell.file, targetCell.rank + 1));
         enPassantPawn != null && enPassantPawn.wasLastMovedPawn && enPassantPawn.symbol == 'W'
         && enPassantPawn.movesDone == 1
    }

    /** A black pawn stands on the square, or one rank below it stands a black pawn
        with exactly one move done that was its side's last moved pawn. A single
        step as first move qualifies as well as a double step. */
    predicate IsBlackPawnOnTargetCell(targetCell: Cell)
      reads this, cells.Values
    {
      var pawn := Occupant(targetCell);
      || (pawn != null && pawn.symbol == 'B')
      || var enPassantPawn := Occupant(Cell(targetCell.file, targetCell.rank - 1));
         enPassantPawn != null && enPassantPawn.wasLastMovedPawn && enPassantPawn.symbol == 'B'
         && enPassantPawn.movesDone == 1
    }

    /** For a black pawn, a diagonal square ahead of it on the board passes the white-pawn
        test exactly when it is a capture target by the capture rule. */
    lemma WhitePawnOnTargetIsCapture(pawn: Pawn, t: Cell)
      requires pawn.symbol == 'B' && InBounds(t)
      requires (t.file == pawn.cellID.file - 1 || t.file == pawn.cellID.file + 1) && t.rank == pawn.cellID.rank - 1
      ensures IsWhitePawnOnTargetCell(t) <==> IsCaptureTarget(pawn, t)
    {
      assert Cell(t.file, t.rank + 1) == Cell(t.file, pawn.cellID.rank);
    }

    /** For a pawn of any other symbol, a diagonal square ahead of it on the board passes
        the black-pawn test exactly when it is a capture target by the capture rule. */
    lemma BlackPawnOnTargetIsCapture(pawn: Pawn, t: Cell)
      requires pawn.symbol != 'B' && InBounds(t)
      requires (t.file == pawn.cellID.file - 1 || t.file == pawn.cellID.file + 1) && t.rank == pawn.cellID.rank + 1
      ensures IsBlackPawnOnTargetCell(t) <==> IsCaptureTarget(pawn, t)
    {
      assert Cell(t.file, t.rank - 1) == Cell(t.file, pawn.cellID.rank);
    }

    /** The squares the pawn may capture on: the left diagonal first, then the right one. */
    function FetchPossibleCaptureCellsFor(pawn: Pawn): (targets: seq<Cell>)
      reads this, pawn, cells.Values
      ensures |targets| <= 2 && Distinct(targets)
      ensures forall t :: t in targets <==> IsCaptureTarget(pawn, t)
    {
      var start := pawn.cellID;
      if pawn.symbol == 'B' then
        var captureLeftCell := Cell(start.file - 1, start.rank - 1);
        var captureRightCell := Cell(start.file + 1, start.rank - 1);
        (if InBounds(captureLeftCell) && IsWhitePawnOnTargetCell(captureLeftCell) then [captureLeftCell] else [])
        + (if InBounds(captureRightCell) && IsWhitePawnOnTargetCell(captureRightCell) then [captureRightCell] else [])
      else
        var captureLeftCell := Cell(start.file - 1, start.rank + 1);
        var captureRightCell := Cell(start.file + 1, start.rank + 1);
        (if InBounds(captureLeftCell) && IsBlackPawnOnTargetCell(captureLeftCell) then [captureLeftCell] else [])
        + (if InBounds(captureRightCell) && IsBlackPawnOnTargetCell(captureRightCell) then [captureRightCell] else [])
    }

    /** The pawn has somewhere to go by the forward or the capture rule. */
    ghost predicate CanMove(pawn: Pawn)
      reads this, pawn, cells.Values
    {
      exists t :: IsForwardTarget(pawn, t) || IsCaptureTarget(pawn, t)
    }

    /** A pawn can move exactly when one of its two target lists is not empty. */
    lemma CanMoveIffTargets(pawn: Pawn)
      ensures CanMove(pawn) <==>
        |FetchPossibleMoveTargetsFor(pawn)| > 0 || |FetchPossibleCaptureCellsFor(pawn)| > 0
    {
      var forward, capture := FetchPossibleMoveTargetsFor(pawn), FetchPossibleCaptureCellsFor(pawn);
      if |forward| > 0 {
        assert IsForwardTarget(pawn, forward[0]);
      } else if |capture| > 0 {
        assert IsCaptureTarget(pawn, capture[0]);
      }
    }

    /** Whether the side has a move: some pawn of it in the registry (also one that
        was taken en passant and left the board) has a forward or a capture target. */
    function NextTurnPossible(currentTurn: Side): (possible: bool)
      reads this, pawns, cells.Values
      ensures possible <==> exists p :: p in pawns && p.player == currentTurn && CanMove(p)
    {
      CanMoveIffTargetsForAll();
      exists p :: p in pawns && p.player == currentTurn
        && (|FetchPossibleMoveTargetsFor(p)| > 0 || |FetchPossibleCaptureCellsFor(p)| > 0)
    }

    lemma CanMoveIffTargetsForAll()
      ensures forall pawn: Pawn :: CanMove(pawn) <==>
        |FetchPossibleMoveTargetsFor(pawn)| > 0 || |FetchPossibleCaptureCellsFor(pawn)| > 0
    {
      forall pawn: Pawn
        ensures CanMove(pawn) <==>
          |FetchPossibleMoveTargetsFor(pawn)| > 0 || |FetchPossibleCaptureCellsFor(pawn)| > 0
      {
        CanMoveIffTargets(pawn);
      }
    }

    /** The registry holds no pawn of the player: the list is scanned element by element. */
    predicate HasNoMorePawns(player: Side): (none: bool)
      reads this
      ensures none <==> forall p :: p in pawns ==> p.player != player
    {
      NoneOwnedBy(pawns, player)
    }

    /** The target's id matches "[a-h]8" for a 'W' pawn and "[a-h]1" for any other
        symbol, that is, the target is on the board in the pawn's final rank. */
    predicate IsFinalRow(movingPawn: Pawn, targetCell: Cell): (final: bool)
      requires -1 <= targetCell.file <= 8 && 0 <= targetCell.rank <= 9
      ensures final <==> InBounds(targetCell) && targetCell.rank == (if movingPawn.symbol == 'W' then 8 else 1)
    {
      var id := CellName(targetCell);
      IsFileChar(id[0]) && id[1] == (if movingPawn.symbol == 'W' then '8' else '1')
    }

    /** The input names a move of one of the player's pawns to a forward or a capture target of it. */
    ghost predicate IsLegalMove(player: Side, input: string)
      reads this, pawns, cells.Values
    {
      && ParseMove(input).Some?
      && var (start, target) := ParseMove(input).value;
         var mover := Occupant(start);
         mover != null && mover.player == player && (IsForwardTarget(mover, target) || IsCaptureTarget(mover, target))
    }

    /** Clears the last-moved flag of every registry pawn of the side and touches nothing else. */
    method ClearLastMovedFlags(side: Side)
      modifies pawns
      ensures forall p :: p in pawns ==> p.wasLastMovedPawn == (old(p.wasLastMovedPawn) && p.player != side)
      ensures forall p :: p in pawns ==> p.cellID == old(p.cellID) && p.movesDone == old(p.movesDone)
    {
      for i := 0 to |pawns|
        invariant forall j :: 0 <= j < i && pawns[j].player == side ==> !pawns[j].wasLastMovedPawn
        invariant forall p :: p in pawns && p.player != side ==> p.wasLastMovedPawn == old(p.wasLastMovedPawn)
        invariant forall p :: p in pawns ==> p.cellID == old(p.cellID) && p.movesDone == old(p.movesDone)
      {
        if pawns[i].player == side {
          pawns[i].wasLastMovedPawn := false;
        }
      }
    }

    /** Moves the pawn from the start to the target square. A pawn standing on the
        target leaves the registry; the mover counts one more move, becomes the only
        flagged pawn of its side and records its new square. The game is over when
        the mover reached its final rank or the opponent has no pawn in the registry. */
    method PerformMove(startCell: Cell, targetCell: Cell, movingPawn: Pawn) returns (result: TurnResult)
      requires Valid()
      requires Occupant(startCell) == movingPawn && InBounds(targetCell) && startCell != targetCell
      modifies this, pawns
      ensures Valid()
      ensures var captured := old(Occupant(targetCell));
        && cells == old(cells)[startCell := null][targetCell := movingPawn]
        && pawns == (if captured == null then old(pawns) else RemoveFirst<Pawn>(old(pawns), captured))
      ensures movingPawn.cellID == targetCell && movingPawn.movesDone == old(movingPawn.movesDone) + 1
      ensures movingPawn.wasLastMovedPawn
      ensures forall p :: p in old(pawns) && p != movingPawn ==>
        && p.cellID == old(p.cellID) && p.movesDone == old(p.movesDone)
        && p.wasLastMovedPawn == (old(p.wasLastMovedPawn) && !(p in pawns && p.player == movingPawn.player))
      ensures result == if IsFinalRow(movingPawn, targetCell) || HasNoMorePawns(Opponent(movingPawn.player))
                        then GameOver(Winner(movingPawn.symbol)) else SuccessfulMove
    {
      var pawnOnTargetCellBeforeMove := Occupant(targetCell);
      if pawnOnTargetCellBeforeMove != null {
        pawns := RemoveFirst<Pawn>(pawns, pawnOnTargetCellBeforeMove);
      }
      cells := cells[startCell := null][targetCell := movingPawn];
      movingPawn.movesDone := movingPawn.movesDone + 1;
      assert forall i :: 0 <= i < |pawns| ==> pawns[i] in old(pawns);
      ClearLastMovedFlags(movingPawn.player);
      movingPawn.wasLastMovedPawn := true;
      movingPawn.cellID := targetCell;
      forall c | c in cells && cells[c] != null
        ensures cells[c] in pawns && cells[c].cellID == c
      {
        if c != targetCell {
          assert cells[c] == old(cells)[c] && cells[c] != movingPawn && cells[c] != pawnOnTargetCellBeforeMove;
        }
      }
      forall p | p in old(pawns) && p != movingPawn
        ensures p.cellID == old(p.cellID) && p.movesDone == old(p.movesDone)
        ensures p.wasLastMovedPawn == (old(p.wasLastMovedPawn) && !(p in pawns && p.player == movingPawn.player))
      {
        if p !in pawns {
          assert p == pawnOnTargetCellBeforeMove;
        }
      }
      assert Distinct(pawns);
      forall p | p in pawns
        ensures p.symbol == SymbolOf(p.player) && InBounds(p.cellID)
      {
        assert p in old(pawns);
      }
      forall p, q | p in pawns && q in pawns && p.player == q.player && p.wasLastMovedPawn && q.wasLastMovedPawn
        ensures p == q
      {
        assert p in old(pawns) && q in old(pawns);
        if p.player == movingPawn.player {
          assert p == movingPawn && q == movingPawn;
        }
      }
      if IsFinalRow(movingPawn, targetCell) || HasNoMorePawns(Opponent(movingPawn.player)) {
        result := GameOver(Winner(movingPawn.symbol));
      } else {
        result := SuccessfulMove;
      }
    }

    /** A capture onto the target. When the target is empty the move is en passant:
        the square beside the start square in the target's file (one rank behind the
        target in the mover's direction) is emptied first, and its pawn stays in the
        registry. Then the pawn moves as in PerformMove. */
    method ExecuteCaptureMove(startCell: Cell, targetCell: Cell, movingPawn: Pawn) returns (result: TurnResult)
      requires Valid()
      requires Occupant(startCell) == movingPawn && IsCaptureTarget(movingPawn, targetCell)
      modifies this, pawns
      ensures Valid()
      ensures var captured := old(Occupant(targetCell));
              var beside := Cell(targetCell.file, startCell.rank);
        && cells == (if captured == null then old(cells)[beside := null] else old(cells))
                      [startCell := null][targetCell := movingPawn]
        && pawns == (if captured == null then old(pawns) else RemoveFirst<Pawn>(old(pawns), captured))
      ensures movingPawn.cellID == targetCell && movingPawn.movesDone == old(movingPawn.movesDone) + 1
      ensures movingPawn.wasLastMovedPawn
      ensures forall p :: p in old(pawns) && p != movingPawn ==>
        && p.cellID == old(p.cellID) && p.movesDone == old(p.movesDone)
        && p.wasLastMovedPawn == (old(p.wasLastMovedPawn) && !(p in pawns && p.player == movingPawn.player))
      ensures result == if IsFinalRow(movingPawn, targetCell) || HasNoMorePawns(Opponent(movingPawn.player))
                        then GameOver(Winner(movingPawn.symbol)) else SuccessfulMove
    {
      var originalContentOfTargetCell := Occupant(targetCell);
      if originalContentOfTargetCell == null {
        if movingPawn.symbol == 'B' {
          cells := cells[Cell(targetCell.file, targetCell.rank + 1) := null];
        } else {
          cells := cells[Cell(targetCell.file, targetCell.rank - 1) := null];
        }
      }
      result := PerformMove(startCell, targetCell, movingPawn);
    }

    /** The second half of a turn, once the start square is known to hold a pawn of
        the player: the move is made when the target is a forward target (a plain
        move) or a capture target (a capture, en passant when the target is empty),
        and rejected otherwise, with nothing changed. */
    method MovePawn(startCell: Cell, targetCell: Cell, movingPawn: Pawn) returns (result: TurnResult)
      requires Valid()
      requires Occupant(startCell) == movingPawn && InBounds(startCell) && InBounds(targetCell)
      modifies this, pawns
      ensures Valid()
      ensures result == InvalidMove <==>
        !old(IsForwardTarget(movingPawn, targetCell) || IsCaptureTarget(movingPawn, targetCell))
      ensures result.Moved() || result == InvalidMove
      ensures result == InvalidMove ==> cells == old(cells) && pawns == old(pawns) && unchanged(pawns)
      ensures result.Moved() ==>
        var captured := old(Occupant(targetCell));
        var beside := Cell(targetCell.file, startCell.rank);
        var enPassant := captured == null && targetCell.file != startCell.file;
        var victim := old(Occupant(beside));
        && cells == (if enPassant then old(cells)[beside := null] else old(cells))
                      [startCell := null][targetCell := movingPawn]
        && (captured == null ==> pawns == old(pawns))
        && (captured != null ==> pawns == RemoveFirst<Pawn>(old(pawns), captured) && |pawns| == |old(pawns)| - 1)
        && (enPassant ==> victim != null && victim in pawns && victim !in cells.Values)
        && movingPawn.cellID == targetCell && movingPawn.movesDone == old(movingPawn.movesDone) + 1
        && (forall p :: p in pawns && p.player == movingPawn.player && p.wasLastMovedPawn <==> p == movingPawn)
        && (forall p :: p in old(pawns) && p != movingPawn ==>
              && p.cellID == old(p.cellID) && p.movesDone == old(p.movesDone)
              && p.wasLastMovedPawn == (old(p.wasLastMovedPawn) && !(p in pawns && p.player == movingPawn.player)))
        && result == if IsFinalRow(movingPawn, targetCell) || HasNoMorePawns(Opponent(movingPawn.player))
                     then GameOver(Winner(movingPawn.symbol)) else SuccessfulMove
    {
      var forwardMoveCells := FetchPossibleMoveTargetsFor(movingPawn);
      var captureCells := FetchPossibleCaptureCellsFor(movingPawn);
      if targetCell in forwardMoveCells {
        result := PerformMove(startCell, targetCell, movingPawn);
      } else if targetCell in captureCells {
        ghost var beside := Cell(targetCell.file, startCell.rank);
        ghost var victim := Occupant(beside);
        ghost var enPassant := Occupant(targetCell) == null;
        result := ExecuteCaptureMove(startCell, targetCell, movingPawn);
        if enPassant {
          forall c | c in cells
            ensures cells[c] != victim
          {
            if c != beside && c != startCell && c != targetCell {
              assert old(cells[c] != null ==> cells[c].cellID == c);
            }
          }
        }
      } else {
        result := InvalidMove;
      }
    }

    /** One turn of the player with the given input. "exit" ends the session; an
        input that is not a move on the board, a start square without a pawn of the
        player, or a target that is neither a forward nor a capture target is
        rejected; nothing changes in any of these cases. Otherwise the move is
        carried out (a capture onto an empty square being en passant) and the result
        says whether it ended the game, with the mover's side as the winner. */
    method ExecuteMove(player: Side, input: string) returns (result: TurnResult)
      requires Valid()
      modifies this, pawns
      ensures Valid()
      ensures result == Exit <==> input == "exit"
      ensures result == InvalidMove <==> input != "exit" && !old(IsLegalMove(player, input))
      ensures !result.Moved() ==> cells == old(cells) && pawns == old(pawns) && unchanged(pawns)
      ensures result.Moved() ==> old(IsLegalMove(player, input))
      ensures result.Moved() ==>
        var (start, target) := ParseMove(input).value;
        var mover := old(Occupant(start));
        var captured := old(Occupant(target));
        var enPassant := captured == null && target.file != start.file;
        var victim := old(Occupant(Cell(target.file, start.rank)));
        && cells == (if enPassant then old(cells)[Cell(target.file, start.rank) := null] else old(cells))
                      [start := null][target := mover]
        && (captured == null ==> pawns == old(pawns))
        && (captured != null ==> pawns == RemoveFirst<Pawn>(old(pawns), captured) && |pawns| == |old(pawns)| - 1)
        && (enPassant ==> victim != null && victim in pawns && victim !in cells.Values)
        && mover.cellID == target && mover.movesDone == old(mover.movesDone) + 1
        && (forall p :: p in pawns && p.player == player && p.wasLastMovedPawn <==> p == mover)
        && (forall p :: p in old(pawns) && p != mover ==>
              && p.cellID == old(p.cellID) && p.movesDone == old(p.movesDone)
              && p.wasLastMovedPawn == (old(p.wasLastMovedPawn) && !(p in pawns && p.player == player)))
        && result == if IsFinalRow(mover, target) || HasNoMorePawns(Opponent(player))
                     then GameOver(Winner(mover.symbol)) else SuccessfulMove
    {
      if input == "exit" {
        return Exit;
      }
      if !IsStartAndTargetWithinBoardBounds(input) {
        return InvalidMove;
      }
      var startCell := CellOf(input[..2]);
      var targetCell := CellOf(input[2..]);
      var movingPawn := Occupant(startCell);
      if movingPawn == null || movingPawn.player != player {
        return InvalidMove;
      }
      assert ParseMove(input).value == (startCell, targetCell);
      result := MovePawn(startCell, targetCell, movingPawn);
    }
  }
}
