# Pawns-only chess: the move rule engine

A Dafny model of the board of a pawns-only chess game (Kotlin). Two players each
start with eight pawns: White on rank 2, Black on rank 7. Players take turns
entering moves as text such as `e2e4`. The board checks each move, carries it out
and reports whether the game is over.

The model has three modules:

- `Cells` (cells.dfy): squares and move text.
  - A square is a coordinate `Cell(file, rank)`: file 0..7 for `a`..`h`, rank 1..8.
  - The two bounds checks are the regular expressions `[a-h][1-8]` and
    `[a-h][1-8][a-h][1-8]`, written as character-range tests.
  - `CellName` and `CellOf` translate between the source's string ids and
    coordinates. Lemmas show the translation loses nothing: ids and squares of the
    board correspond one to one, and parsing a move's text gives back its two
    squares.
- `Pawns` (pawn.dfy): the `Pawn` class.
  - Owner and symbol are constants.
  - The square (`cellID`), the move counter and the last-moved flag are fields
    the board updates in place.
- `Chess` (board.dfy): the `Board` class.
  - `cells` is a map from square to `Pawn?`. A square with no entry reads as
    empty (`Occupant`).
  - `pawns` is the registry.
  - The setup, the move methods and the flag-clearing loop are imperative and
    change these fields and the pawns in place.
  - The target lists, the colour checks (`IsWhitePawnOnTargetCell`,
    `IsBlackPawnOnTargetCell`), `IsFinalRow`, `HasNoMorePawns` and
    `NextTurnPossible` are functions of the board.
  - The target lists are specified by two independent rule predicates,
    `IsForwardTarget` and `IsCaptureTarget`.
  - `Valid` is the invariant that every public operation (setup and `ExecuteMove`)
    establishes or keeps, and so do the move methods it calls (`MovePawn`,
    `ExecuteCaptureMove`, `PerformMove`); the setup helpers build towards it.

Behaviour of the code that the model keeps, and proves:

- **Double step.** The double step looks only at the destination square. A pawn
  may jump over an occupied square.
- **En passant condition.** The en passant condition looks at the square beside
  the capturer (which must hold a pawn of the other colour), but not at the target
  square: the target may even hold the capturer's own pawn. Example: a White pawn
  stands on d6 and another on e5; Black plays d7d5, jumping over d6. Then d6 is a
  capture target of the pawn on e5. Since d6 is occupied, e5d6 is carried out as
  an ordinary capture: White's own pawn on d6 is overwritten and removed from the
  registry, and the black pawn on d5 stays where it is.
- **Which pawn can be taken en passant.** The condition asks only that the pawn
  beside has made exactly one move and was its side's last moved pawn. A pawn
  whose first move was a single step (Black d7d6, say) therefore qualifies too,
  not only one that made a double step.
- **En passant capture.** An en passant capture empties the victim's square but
  leaves the victim in the registry. The victim is then in `pawns` and on no
  square. `ExecuteMove`'s contract states this.
  - `HasNoMorePawns` still sees that pawn.
  - `NextTurnPossible` still looks at it, from its old square.
  - This is why `Valid` asks only that every occupant is registered, not that
    every registered pawn occupies a square.
- **Game over.** The end of the game is decided after the board has changed. The
  model returns `GameOver(winner)` from a state in which the move has already been
  carried out, exactly as the Kotlin method throws after its updates.

## Model

| member | source | states |
|---|---|---|
| Cells.CellName | src/main/kotlin/chess/Board.kt:150 | the id of a square at most one step off the board has two characters, and matches `[a-h][1-8]` exactly when the square is on the board |
| Cells.CellOf | src/main/kotlin/chess/Board.kt:86-87 | a well-formed cell id names a square on the board whose id is that text again |
| Cells.CellNameInjective | src/main/kotlin/chess/Board.kt:12 | distinct squares of the board have distinct ids, so coordinates can stand for the map's string keys |
| Cells.ParseMove | src/main/kotlin/chess/Board.kt:81-87 | a move text is parsed exactly when it matches `[a-h][1-8][a-h][1-8]`; the two squares are on the board and their ids put together are the text |
| Cells.ParseMoveName | src/main/kotlin/chess/Board.kt:86-87 | the text of any move between two squares of the board parses back to those two squares |
| Cells.ExitIsNotAMove | src/main/kotlin/chess/Board.kt:78-82 | the sentinel `exit` is not a move text |
| Pawns.Pawn.constructor | src/main/kotlin/chess/Pawn.kt:3-5 | a new pawn has the given owner, symbol and square, no moves done and no last-moved flag |
| Chess.RemoveFirst | src/main/kotlin/chess/Board.kt:116 | removing a registered pawn shortens the list by one and keeps every other element; removing an absent one changes nothing; in a list without repetitions the removed element is gone |
| Cells.CellIdsAreSquareNames | src/main/kotlin/chess/Board.kt:150 | `IsCellWithinBoardBounds`, the `[a-h][1-8]` check, accepts a text exactly when it is the id of a square of the board |
| Cells.MoveTextsAreSquarePairs | src/main/kotlin/chess/Board.kt:148 | `IsStartAndTargetWithinBoardBounds`, the `[a-h][1-8][a-h][1-8]` check, accepts a text exactly when it is the ids of two squares of the board put together |
| Chess.Winner | src/main/kotlin/chess/Board.kt:126 | the side announced as winner for a side's pawn symbol is that side ('W' White, any other symbol Black) |
| Chess.RemoveFirstContents | src/main/kotlin/chess/Board.kt:116 | removal takes out exactly one occurrence of the pawn from the registry's contents, and nothing when it is absent |
| Chess.RemoveFirstOrder | src/main/kotlin/chess/Board.kt:116 | removal cuts out the first occurrence and keeps the rest in order |
| Chess.NoneOwnedBy | src/main/kotlin/chess/Board.kt:132 | scanning a pawn list finds no pawn of the side exactly when no element belongs to it |
| Chess.Board.HasNoMorePawns | src/main/kotlin/chess/Board.kt:131-133 | true exactly when no pawn of the registry belongs to the player |
| Chess.Board.IsFinalRow | src/main/kotlin/chess/Board.kt:105-111 | the target's id matches `[a-h]8` for a 'W' pawn and `[a-h]1` for any other symbol exactly when the target is on the board in rank 8, respectively rank 1 |
| Chess.Board.WhitePawnOnTargetIsCapture | src/main/kotlin/chess/Board.kt:212-221 | `IsWhitePawnOnTargetCell` (a 'W' pawn on the square, or one rank above it a 'W' pawn with one move done and the last-moved flag) holds on a diagonal square ahead of a black pawn exactly when that square is a capture target by the capture rule |
| Chess.Board.BlackPawnOnTargetIsCapture | src/main/kotlin/chess/Board.kt:223-232 | `IsBlackPawnOnTargetCell` (a 'B' pawn on the square, or one rank below it a 'B' pawn with one move done and the last-moved flag) holds on a diagonal square ahead of a pawn of any other symbol exactly when that square is a capture target by the capture rule |
| Chess.Board.constructor | src/main/kotlin/chess/Board.kt:9-24 | after setup the board is valid; every rank-2 square holds a new White 'W' pawn, every rank-7 square a new Black 'B' pawn, all other squares are empty; the registry holds exactly these 16 pawns, per file the black one before the white one |
| Chess.Board.SetUpFile | src/main/kotlin/chess/Board.kt:11-22 | one pass of the inner setup loop adds the eight squares of one file with their starting content and two pawns to the registry |
| Chess.Board.PlaceSquare | src/main/kotlin/chess/Board.kt:12-21 | one square gets its starting content by rank; a pawn placed is new, records the square, and is appended to the registry |
| Chess.Board.SetUpIsValid | src/main/kotlin/chess/Board.kt:9-24 | the squares set up file by file make a valid board with the registry in setup order |
| Chess.Board.FetchPossibleMoveTargetsFor | src/main/kotlin/chess/Board.kt:152-182 | at most two distinct targets, and a square is listed exactly when it is empty in the pawn's own file one rank ahead, or two ranks ahead while the pawn has not moved; the square in between is not consulted |
| Chess.Board.FetchPossibleCaptureCellsFor | src/main/kotlin/chess/Board.kt:184-232 | at most two distinct targets, and a square is listed exactly when it is on the board, one file aside and one rank ahead, and holds a pawn of the other colour, or the square beside the pawn in that file holds a pawn of the other colour with one move done and the last-moved flag set (the target need not be empty) |
| Chess.Board.CanMoveIffTargets | src/main/kotlin/chess/Board.kt:236-238 | a pawn has a forward or a capture target exactly when one of its two target lists is non-empty |
| Chess.Board.NextTurnPossible | src/main/kotlin/chess/Board.kt:234-240 | true exactly when some pawn of the side in the registry, including one taken en passant, has a forward or capture target |
| Chess.Board.ClearLastMovedFlags | src/main/kotlin/chess/Board.kt:121 | every registry pawn of the side loses its last-moved flag, the other side's flags and all squares and counters stay as they were |
| Chess.Board.PerformMove | src/main/kotlin/chess/Board.kt:113-133 | the board stays valid; the start square becomes empty and the target holds the mover; a pawn on the target leaves the registry; the mover counts one more move, records the target and is its side's only flagged pawn; other pawns keep square and counter, and the other side keeps its flags; game over with the mover's side winning exactly when the target is on the final rank or the opponent has no registered pawn |
| Chess.Board.ExecuteCaptureMove | src/main/kotlin/chess/Board.kt:135-146 | on an empty target the square beside the start in the target's file is emptied and the registry is unchanged; on an occupied target the occupant leaves the registry; then the move proceeds as PerformMove |
| Chess.Board.MovePawn | src/main/kotlin/chess/Board.kt:93-102 | with a pawn of the player on the start square, the move is rejected exactly when the target is neither a forward nor a capture target, and then nothing changes; otherwise the board stays valid and the new squares, registry, pawn fields and result are those of a plain move, an ordinary capture or an en passant capture |
| Chess.Board.ExecuteMove | src/main/kotlin/chess/Board.kt:77-103 | `exit` gives Exit; any input that is not a legal move of the player's own pawn to a forward or capture target gives InvalidMove, with squares, registry and all pawns unchanged; a legal move updates the board as PerformMove and ExecuteCaptureMove state, an ordinary capture shrinks the registry by one, an en passant victim stays registered but on no square, and the board stays valid |

## Left out

- Board rendering (`printBoard` and its helpers, Board.kt:26-75) and the `println` diagnostics of `executeMove`: console output only.
- src/main/kotlin/chess/Game.kt and src/main/kotlin/chess/Main.kt: the turn loop reading input, the stalemate message and the catching of `GameOver` are I/O around `ExecuteMove` and `NextTurnPossible`.
- `Player`: its definition is not part of this model. A player is represented by the side it plays (the first player White, the second Black), so the two players are assumed distinct.
- The `GameOver` exception: it is a result variant `GameOver(winner)` here; the message text is not modelled.
- Regular expressions: the two bounds checks are character-range tests, which is what the patterns mean.
- Pawns.Pawn.constructor: `movesDone` is a `nat`, so the wrap-around of Kotlin's 32-bit `Int` is not modelled; a pawn makes at most six moves before reaching its final rank.
- Chess.Board.ExecuteMove: squares are coordinates rather than the source's string keys. Ids off the board such as `a0`, `a9` or `` `3 `` are never keys of the map in the source either, so they read as empty squares in both.
