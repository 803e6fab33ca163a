# Browser chess: a verified model of the rules engine

The game (`script.js`) keeps one global position: an 8×8 board of
two-letter codes (`"wk"`, `"bp"`, …), the side to move, castling flags per
colour and side, an en-passant target, the last move, a pending pawn
promotion and a stack of serialized snapshots for undo. Clicks select a piece
of the side to move and then a destination; `isValidMove` decides whether
the move is made, `makeMove` commits it (castling rook, en-passant capture,
promotion), `finalizeMove` updates the castling flags, the en-passant target,
the last move and the turn, and `checkGameEnd` classifies checkmate and
stalemate.

The model has four modules:

- `Chess` (chess.dfy): pieces, cells, the board as a row-major sequence of
  64 cells (`Idx(r, c) = 8 * r + c`, row 0 is Black's back rank), squares,
  moves, castling flags and the read-only position.
- `Rules` (rules.dfy): every read-only query of the engine as a declarative
  function of a position: `pathClear`, the piece geometry of `basicMove`,
  `validateCastling`, `squareAttacked`, `findKing`, `isKingInCheck`,
  `causesSelfCheck`, `isValidMove`, `hasAnyLegalMove` and the
  `checkGameEnd` classification. The lemmas there turn each scan into the
  property it decides, such as "some opposing piece reaches the square" or
  "every square between king and corner is empty".
- `Engine` (engine.dfy): the class `Game` with the board as an `array` of
  64 cells and the other globals as fields. The queries are methods with the
  source's loops, each proved equal to its `Rules` function. The board
  toggle of `causesSelfCheck` is proved to restore the board. The commands
  (`makeMove`, `finalizeMove`, `updateCastlingRights`, the promotion choice,
  `undoMove`, `initGame` and `handleClick` with its selected square) are
  methods whose postconditions give the whole new state.
- `AsWritten` (as_written.dfy): the source's attack test exactly as
  written, including its recursion through castling, with a fuel budget (see
  Findings).

Coordinates, piece codes and constants follow the source. White pawns move
towards row 0 and double-step from row 6; Black pawns move towards row 7
and double-step from row 1. The castling rook stands on column 7 or 0 and
lands next to the king. Promotion happens on rows 0 and 7.

The model follows the code, including these behaviours a reader might not
expect:

- The promotion choice finalizes the move with the origin of the *previous*
  recorded move. This is the opponent's last move, or (0, 0) when there is
  none. The pawn's own origin is not used. So a pawn promoted to a rook can
  clear a castling flag, and the new last move has the wrong origin.
- `undoMove` leaves a pending promotion in place. The piece chosen afterwards
  is written onto the restored board, and the turn passes again.
- `undoMove` also keeps the selected square. The piece's colour is checked
  only when it is selected. So after selecting a White piece and pressing
  Undo (Black to move), the next click can move that White piece, and
  finalizing it hands the turn back to White.
- Castling never checks that a rook stands in the corner. Whatever stands
  there is moved next to the king, even a piece of the opponent, and an
  empty corner moves nothing.
- Capturing a rook does not clear the opponent's castling flag.
- The self-check test moves only the moving piece. It does not remove the
  pawn taken en passant, and it does not move the castling rook. An
  en-passant capture that uncovers a check on the mover's own king is
  therefore accepted; that king can then be captured, after which
  `findKing` finds nothing and the next check test throws.

## Model

| member | source | states |
|---|---|---|
| Rules.PathClearMeans | script.js:333-342 | the step-by-step walk of `pathClear` is clear exactly when every square strictly between the two aligned squares is empty |
| Rules.ClearFromMeans | script.js:336-340 | the walk from step k on checks exactly steps k up to, not including, the destination |
| Rules.PathClearIgnoresEnds | script.js:333-342 | neither end square is inspected: rewriting the origin and destination cells never changes the answer |
| Rules.PawnGeometry | script.js:253-272 | an accepted pawn move goes one row forward, or two from its home row over an empty square; straight only onto an empty square, diagonally only by one column onto an opposing piece or the en-passant target |
| Rules.FindKingFrom | script.js:354-358 | the result holds a king of the colour and no such king comes before it; None only when no king of the colour is at or after the start |
| Rules.FindKing | script.js:354-358 | a king is found exactly when the board holds a king of the colour |
| Rules.FindKingIsFirst | script.js:354-358 | the first king of the colour in row-major order is the one returned |
| Rules.SquareAttackedMeans | script.js:321-331 | the square is attacked exactly when some piece of the opponent stands where its movement rule reaches the square |
| Rules.AttackIgnoresCastling | script.js:321-331 | the corrected attack test does not depend on the castling flags |
| Rules.KingAttacksAdjacent | script.js:291-292 | an opposing king attacks exactly the squares at most one row and one column away from it, its own square included |
| Rules.RookPathMeans | script.js:307-312 | the first castling loop checks exactly the squares strictly between the king and the rook's corner |
| Rules.TransitMeans | script.js:314-316 | the second castling loop checks exactly the squares from the king's column through the target column |
| Rules.ValidateCastlingMeans | script.js:301-319 | castling is allowed exactly when the king is not in check, the flag of that side is set, the squares up to the corner are empty and none of the squares the king crosses is attacked |
| Rules.CastlingFailures | script.js:291-299 | each failed castling condition rules out the king's two-column shift |
| Rules.ToggleKeepsKing | script.js:344-352 | moving a piece onto a square not held by the mover's colour keeps that colour's king on the board, so the check test after the toggle has a king to find |
| Rules.ValidMoveFacts | script.js:237-244 | a valid move of the side to move changes squares, never lands on a piece of its own colour, and leaves that side's king unattacked on the toggled board |
| Rules.DestinationScanDecides | script.js:368-370 | the two inner loops of `hasAnyLegalMove` find a destination exactly when the piece has a valid move |
| Rules.MoverScanDecides | script.js:365-373 | the four loops find a move exactly when some piece of the colour has a valid move |
| Rules.GameStatus | script.js:375-381 | checkmate iff in check with no legal move, stalemate iff not in check with no legal move, and the game goes on iff a legal move exists |
| Engine.InitialKings | script.js:23-32 | the initial board has the white king on row 7, column 4 and the black king on row 0, column 4 |
| Engine.MoveBoard | script.js:133-149 | the moved piece lands on the target and leaves its origin empty; a castling rook is relocated next to the king; a pawn taken en passant is removed; every other square is unchanged |
| Engine.UpdatedRights | script.js:178-187 | flags are never set; a king move clears both flags of its colour; a rook leaving column 0 or 7 clears the queen-side or king-side flag; the other colour and the other kinds leave the flags unchanged |
| Engine.RightsNeverRestored | script.js:178-187 | along any run of finalized moves a castling flag that has been cleared stays cleared |
| Engine.NextEp | script.js:165-170 | an en-passant target exists exactly after a two-row pawn advance, and it is the square passed over |
| Engine.Game.constructor | script.js:22-44 | the standard position with White to move, all four castling flags, no en-passant target, no last move, no pending promotion and an empty history |
| Engine.Game.PathClear | script.js:333-342 | the loop's answer is `pathClear` on the current board |
| Engine.Game.Reaches | script.js:246-290 | the per-kind branches of `basicMove`, apart from castling, give the movement rule of the piece |
| Engine.Game.BasicMove | script.js:246-299 | the answer is the movement rule, with a king's two-column shift along its row decided by the castling conditions |
| Engine.Game.RookPathEmpty | script.js:310-312 | the first castling loop answers whether the squares up to the corner are empty |
| Engine.Game.SafeAt | script.js:315 | one square of the second castling loop is safe exactly when it is not attacked |
| Engine.Game.TransitSafe | script.js:314-316 | the second castling loop answers whether none of the squares the king crosses is attacked |
| Engine.Game.CastlingPath | script.js:307-318 | the two castling loops run in order and the first failure decides |
| Engine.Game.ValidateCastling | script.js:301-319 | the answer is the castling condition, and a king of the colour is on the board |
| Engine.Game.SquareAttacked | script.js:321-331 | the nested scan answers the attack test |
| Engine.Game.FindKing | script.js:354-358 | the nested scan returns the first king of the colour, or None |
| Engine.Game.IsKingInCheck | script.js:360-363 | the king's square is attacked |
| Engine.Game.CausesSelfCheck | script.js:344-352 | the answer is the check test on the toggled board, and the board is restored afterwards |
| Engine.Game.IsValidMove | script.js:237-244 | the answer is the validity rule, and the board is unchanged afterwards |
| Engine.Game.HasLegalMoveFrom | script.js:368-371 | the inner loops answer whether the piece on the square has a valid move, and leave the board unchanged |
| Engine.Game.HasAnyLegalMove | script.js:365-373 | the loops answer whether some piece of the colour has a valid move, and leave the board unchanged |
| Engine.Game.CheckGameEnd | script.js:375-381 | the classification is that of the position, and the board is unchanged |
| Engine.Game.UpdateCastlingRights | script.js:178-187 | the new flags are the updated rights of the moved piece and the column it left |
| Engine.Game.FinalizeMove | script.js:161-176 | the flags are updated, the en-passant target is set or cleared, the last move is recorded, the turn passes, and the board, pending promotion and history are kept |
| Engine.Game.MoveCells | script.js:133-149 | the board after the in-place writes is the move's board |
| Engine.Game.MakeMove | script.js:121-159 | a snapshot of the old state is pushed and the board becomes the move's board; a pawn reaching row 0 or 7 waits for promotion with everything else unchanged, any other move is finalized |
| Engine.Game.ChoosePromotion | script.js:196-211 | the chosen piece is put on the promotion square and the move is finalized with the previous last move's origin; the pending promotion is cleared |
| Engine.Game.UndoMove | script.js:218-227 | with an empty history nothing changes; otherwise the last snapshot is popped and board, turn, flags, en-passant target and last move are restored, while the pending promotion and the selected square are kept |
| Engine.Game.MoveThenUndo | script.js:121-159 | a move followed by an undo gives back the exact state and history from before the move; only a promotion that the move left pending survives |
| Engine.Game.TryMove | script.js:92-95 | the move is made exactly when it is valid, leaving the state `makeMove` gives; otherwise nothing changes |
| Engine.Game.Select | script.js:101-104 | a piece of the side to move on the clicked square becomes the selection, any other click selects nothing, and the position is unchanged |
| Engine.Game.MoveSelected | script.js:91-100 | the move from the selected square is made exactly when valid, with the full state `makeMove` gives, and the selection is dropped either way |
| Engine.Game.Click | script.js:85-107 | ignored while a promotion waits; with a selection, the move from it is made exactly when valid (the full new state is given) and the selection is dropped; without one, a piece of the side to move is selected and nothing else changes |
| AsWritten.ScanStopsAt | script.js:321-331 | the as-written scan gives no answer when its first opposing piece's `basicMove` gives none |
| AsWritten.OnlyTheKings | script.js:354-358 | with only the two kings on the board, each is found where it stands and no other square holds a piece |
| AsWritten.ScanAgrees | script.js:321-331 | when no opposing king stands two columns from the square on its row, the as-written scan answers, and its answer is the corrected scan's |
| AsWritten.AttackAgreesAwayFromKings | script.js:321-331 | in that case the as-written `squareAttacked` answers, for any fuel, exactly as the corrected attack test |
| AsWritten.CheckAgreesAwayFromKings | script.js:360-363 | when no opposing king stands two columns from the king on its row, the as-written `isKingInCheck` answers exactly as the corrected check test |
| AsWritten.KingShiftNeverAnswers | script.js:291-296 | a king's two-column shift gives no answer when that king's own check test gives none |
| AsWritten.CheckTestNeverAnswers | script.js:301-331 | as written, when the two kings stand alone on a row two columns apart, `isKingInCheck` never returns for either colour, whatever the fuel |
| AsWritten.KingsOnE4AndG4 | script.js:360-363 | the concrete position with kings on e4 and g4 is such a position |
| AsWritten.BareKingsNotInCheck | script.js:360-363 | the corrected check test answers the same position: neither king is in check |

## Left out

- Rendering, the DOM, `showMoves` highlighting, the promotion dialog's markup, alerts and the move-history text (`render`, `showMoves`, `addMoveToHistory`, the glyph table) are user-interface code with no effect on the position.
- The JSON serialization of snapshots is modelled as storing an immutable `Snapshot` value. The round trip through `JSON.stringify` and `JSON.parse` is taken to be the identity on boards, flags, targets and moves.
- `checkGameEnd` reports by alert; `Engine.Game.CheckGameEnd` returns the classification instead.
- Engine.Game.IsKingInCheck: requires a king of the colour on the board. The source throws when `findKing` finds none, and the model does not carry that error path. The model does not prove that both kings stay on the board; the self-check gap below can leave a king capturable.
- Engine.Game.CausesSelfCheck: like the source, it toggles only the moving piece. A move that exposes the king by an en-passant capture, or by the castling rook's move, is judged on the toggled board alone.
- The attack test in `Rules` and `Engine` leaves out the castling branch of `basicMove`. As written, that branch can recurse without end (see Findings). Module `AsWritten` models the as-written recursion with fuel, and proves that the two tests give the same answer whenever no opposing king stands on the same row two columns from the square (`AsWritten.AttackAgreesAwayFromKings`).
- `initGame` does not reset the en-passant target, the last move or a pending promotion. The model's constructor starts with them empty, which is their value when the page loads; a second call of `initGame` during a game is not modelled.

## Findings

| source | as written | input that shows it | evidently intended | confidence | as-written member | corrected member |
|---|---|---|---|---|---|---|
| script.js:291-331 | `squareAttacked` asks `basicMove`, whose two-column king shift calls `validateCastling`, which calls `isKingInCheck`, which calls `squareAttacked` again | White king on e4 and Black king on g4 (row 4, columns 4 and 6), nothing else: each king's check test asks whether the other king may castle onto it, without end, so any `isKingInCheck` on this position overflows the stack | an attack is a piece's movement rule without castling, so the test always answers (here: neither king is in check) | not executed | AsWritten.CheckTestNeverAnswers | Rules.AttackIgnoresCastling |
