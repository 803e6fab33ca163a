/** The game state and the operations that change it: committing a move
    (castling rook relocation, en-passant capture, promotion), the finalize
    step (castling rights, en-passant target, last move, turn), promotion
    resolution and undo; and the engine's scanning loops, each proved equal
    to the declarative rule of module Rules that it implements.
 */
module Engine {
  import opened Chess
  import Rules

  // ---------------------------------------------------------------------
  // Values kept by the game
  // ---------------------------------------------------------------------

  /** An en-passant target lies on a row a pawn can pass over. */
  predicate EpOk(ep: Option<Square>) {
    ep.None? || (1 <= ep.value.row <= 6 && 0 <= ep.value.col < 8)
  }

  predicate MoveOk(m: Option<Move>) {
    m.None? || (OnBoard(m.value.from.row, m.value.from.col) && OnBoard(m.value.to.row, m.value.to.col))
  }

  predicate SquareOk(sq: Option<Square>) {
    sq.None? || OnBoard(sq.value.row, sq.value.col)
  }

  predicate PromotionOk(pp: Option<Promotion>) {
    pp.None? || OnBoard(pp.value.square.row, pp.value.square.col)
  }

  /** What is saved before each move: everything but the pending promotion. */
  datatype Snapshot = Snapshot(board: Board, turn: Color, rights: CastlingRights,
                               ep: Option<Square>, lastMove: Option<Move>)

  predicate SnapshotOk(s: Snapshot) {
    EpOk(s.ep) && MoveOk(s.lastMove)
  }

  // ---------------------------------------------------------------------
  // The initial position
  // ---------------------------------------------------------------------

  /** Rook, knight, bishop, queen, king, bishop, knight, rook. */
  function BackRank(c: Color): seq<Cell> {
    [Some(Piece(c, Rook)), Some(Piece(c, Knight)), Some(Piece(c, Bishop)), Some(Piece(c, Queen)),
     Some(Piece(c, King)), Some(Piece(c, Bishop)), Some(Piece(c, Knight)), Some(Piece(c, Rook))]
  }

  function PawnRank(c: Color): seq<Cell> {
    seq(8, _ => Some(Piece(c, Pawn)))
  }

  function EmptyRank(): seq<Cell> {
    seq(8, _ => None)
  }

  /** `initGame`'s board, row 0 (Black's back rank) first. */
  function InitialBoard(): Board {
    BackRank(Black) + PawnRank(Black) + EmptyRank() + EmptyRank()
    + EmptyRank() + EmptyRank() + PawnRank(White) + BackRank(White)
  }

  function AllRights(): CastlingRights {
    CastlingRights(SideRights(true, true), SideRights(true, true))
  }

  /** The initial position has the white king on e1 and the black king on
      e8, so each side has a king. */
  lemma InitialKings()
    ensures At(InitialBoard(), 7, 4) == Some(Piece(White, King))
    ensures At(InitialBoard(), 0, 4) == Some(Piece(Black, King))
    ensures Rules.HasKing(InitialBoard(), White) && Rules.HasKing(InitialBoard(), Black)
  {
    var b := InitialBoard();
    assert b[Idx(7, 4)] == Some(Piece(White, King));
    assert b[Idx(0, 4)] == Some(Piece(Black, King));
  }

  // ---------------------------------------------------------------------
  // Committing a move: the board
  // ---------------------------------------------------------------------

  /** A king shifting two columns castles. */
  predicate IsCastling(piece: Piece, fc: int, tc: int) {
    piece.kind == King && Abs(tc - fc) == 2
  }

  /** The rook's corner column and the column it lands on. */
  function RookFrom(fc: int, tc: int): int {
    if tc > fc then 7 else 0
  }

  function RookTo(fc: int, tc: int): int {
    if tc > fc then tc - 1 else tc + 1
  }

  /** A pawn landing on the en-passant target captures en passant. */
  predicate IsEnPassant(piece: Piece, ep: Option<Square>, tr: int, tc: int) {
    piece.kind == Pawn && ep == Some(Square(tr, tc))
  }

  /** The row of the pawn taken en passant, behind the target as seen by the side to move. */
  function CaptureRow(turn: Color, tr: int): int {
    if turn == White then tr + 1 else tr - 1
  }

  /** The cells a move writes to. */
  predicate Touched(p: Position, fr: int, fc: int, tr: int, tc: int, r: int, c: int)
    requires OnBoard(fr, fc) && At(p.board, fr, fc).Some?
  {
    var piece := At(p.board, fr, fc).value;
    || (r == fr && c == fc)
    || (r == tr && c == tc)
    || (IsCastling(piece, fc, tc) && r == fr && (c == RookFrom(fc, tc) || c == RookTo(fc, tc)))
    || (IsEnPassant(piece, p.ep, tr, tc) && r == CaptureRow(p.turn, tr) && c == tc)
  }

  /** The board after `makeMove`: the castling rook is relocated, the pawn
      taken en passant is removed, and the piece moves. */
  function MoveBoard(p: Position, fr: int, fc: int, tr: int, tc: int): (b': Board)
    requires OnBoard(fr, fc) && OnBoard(tr, tc) && At(p.board, fr, fc).Some? && EpOk(p.ep)
    ensures (fr, fc) != (tr, tc) ==> At(b', tr, tc) == At(p.board, fr, fc) && At(b', fr, fc) == None
    ensures IsCastling(At(p.board, fr, fc).value, fc, tc) ==>
              At(b', fr, RookTo(fc, tc)) == At(p.board, fr, RookFrom(fc, tc))
              && ((fr, RookFrom(fc, tc)) != (tr, tc) ==> At(b', fr, RookFrom(fc, tc)) == None)
    ensures IsEnPassant(At(p.board, fr, fc).value, p.ep, tr, tc) ==>
              OnBoard(CaptureRow(p.turn, tr), tc) && At(b', CaptureRow(p.turn, tr), tc) == None
    ensures forall r, c :: OnBoard(r, c) && !Touched(p, fr, fc, tr, tc, r, c) ==> At(b', r, c) == At(p.board, r, c)
  {
    var b := p.board;
    var piece := At(b, fr, fc).value;
    var b1 :=
      if IsCastling(piece, fc, tc) then
        b[Idx(fr, RookTo(fc, tc)) := At(b, fr, RookFrom(fc, tc))][Idx(fr, RookFrom(fc, tc)) := None]
      else b;
    var b2 :=
      if IsEnPassant(piece, p.ep, tr, tc) then b1[Idx(CaptureRow(p.turn, tr), tc) := None]
      else b1;
    b2[Idx(tr, tc) := Some(piece)][Idx(fr, fc) := None]
  }

  /** A pawn reaching row 0 or row 7 waits for its new kind. */
  predicate Promotes(piece: Piece, tr: int) {
    piece.kind == Pawn && (tr == 0 || tr == 7)
  }

  // ---------------------------------------------------------------------
  // Finalizing a move: castling rights and the en-passant target
  // ---------------------------------------------------------------------

  /** No flag of `after` is set unless it was set in `before`. */
  predicate Narrower(after: CastlingRights, before: CastlingRights) {
    && (after.white.kingSide ==> before.white.kingSide)
    && (after.white.queenSide ==> before.white.queenSide)
    && (after.black.kingSide ==> before.black.kingSide)
    && (after.black.queenSide ==> before.black.queenSide)
  }

  /** `updateCastlingRights`: a king move clears both flags of its colour; a
      rook leaving column 0 clears the queen-side flag and one leaving column
      7 the king-side flag. */
  function UpdatedRights(cr: CastlingRights, piece: Piece, fc: int): (r: CastlingRights)
    ensures Narrower(r, cr)
    ensures r.Of(Opponent(piece.color)) == cr.Of(Opponent(piece.color))
    ensures piece.kind == King ==> !r.Of(piece.color).kingSide && !r.Of(piece.color).queenSide
    ensures piece.kind == Rook ==>
              r.Of(piece.color).queenSide == (cr.Of(piece.color).queenSide && fc != 0)
              && r.Of(piece.color).kingSide == (cr.Of(piece.color).kingSide && fc != 7)
    ensures piece.kind != King && piece.kind != Rook ==> r == cr
  {
    var s := cr.Of(piece.color);
    if piece.kind == King then cr.With(piece.color, SideRights(false, false))
    else if piece.kind == Rook then
      cr.With(piece.color, SideRights(s.kingSide && fc != 7, s.queenSide && fc != 0))
    else cr
  }

  /** The castling rights after a run of finalized moves, each given by the
      moved piece and the column it left. */
  function ReplayRights(cr: CastlingRights, moves: seq<(Piece, int)>): CastlingRights
    decreases |moves|
  {
    if moves == [] then cr else ReplayRights(UpdatedRights(cr, moves[0].0, moves[0].1), moves[1..])
  }

  /** Along any run of finalized moves a castling flag, once cleared, stays cleared. */
  lemma {:induction false} RightsNeverRestored(cr: CastlingRights, moves: seq<(Piece, int)>)
    ensures Narrower(ReplayRights(cr, moves), cr)
    decreases |moves|
  {
    if moves != [] {
      RightsNeverRestored(UpdatedRights(cr, moves[0].0, moves[0].1), moves[1..]);
    }
  }

  /** The en-passant target after a move: the square a pawn passed over on a
      two-row advance, and none after any other move. */
  function NextEp(piece: Piece, fr: int, fc: int, tr: int, tc: int): (ep: Option<Square>)
    requires OnBoard(fr, fc) && OnBoard(tr, tc)
    ensures ep.Some? <==> piece.kind == Pawn && Abs(tr - fr) == 2
    ensures ep.Some? ==> EpOk(ep) && ep.value.col == fc && Abs(ep.value.row - fr) == 1
                         && Abs(ep.value.row - tr) == 1
  {
    if piece.kind == Pawn && Abs(tr - fr) == 2 then Some(Square((fr + tr) / 2, fc)) else None
  }

  /** The state `makeMove` leaves behind when it moves the piece on
      (fr, fc) to (tr, tc) from state s with pending promotion pp: the
      move's board, and then either a promotion waiting with nothing else
      changed, or the finalized move. */
  ghost predicate Moved(s: Snapshot, pp: Option<Promotion>, fr: int, fc: int, tr: int, tc: int,
                        s': Snapshot, pp': Option<Promotion>)
    requires OnBoard(fr, fc) && OnBoard(tr, tc) && s.board[Idx(fr, fc)].Some? && EpOk(s.ep)
  {
    var piece := s.board[Idx(fr, fc)].value;
    && s'.board == MoveBoard(Position(s.board, s.turn, s.rights, s.ep), fr, fc, tr, tc)
    && if Promotes(piece, tr) then
         && pp' == Some(Promotion(Square(tr, tc), piece.color))
         && s'.turn == s.turn && s'.rights == s.rights && s'.ep == s.ep && s'.lastMove == s.lastMove
       else
         && pp' == pp
         && s'.turn == Opponent(s.turn)
         && s'.rights == UpdatedRights(s.rights, piece, fc)
         && s'.ep == NextEp(piece, fr, fc, tr, tc)
         && s'.lastMove == Some(Move(Square(fr, fc), Square(tr, tc)))
  }

  // ---------------------------------------------------------------------
  // The game
  // ---------------------------------------------------------------------

  class Game {
    var board: array<Cell>
    var turn: Color
    var rights: CastlingRights
    var ep: Option<Square>
    var lastMove: Option<Move>
    var pending: Option<Promotion>
    var history: seq<Snapshot>
    var selected: Option<Square>

    ghost predicate Valid()
      reads this
    {
      && board.Length == 64
      && EpOk(ep) && MoveOk(lastMove) && PromotionOk(pending) && SquareOk(selected)
      && forall i :: 0 <= i < |history| ==> SnapshotOk(history[i])
    }

    ghost function Cells(): Board
      reads this, board
      requires Valid()
    {
      board[..]
    }

    /** What the move rules read. */
    ghost function Pos(): Position
      reads this, board
      requires Valid()
    {
      Position(board[..], turn, rights, ep)
    }

    /** What a snapshot saves and undo restores. */
    function State(): Snapshot
      reads this, board
      requires Valid()
    {
      Snapshot(board[..], turn, rights, ep, lastMove)
    }

    /** `initGame`: the standard position, White to move, every castling flag
        set, no en-passant target, no last move, no promotion, no selection
        and no history. */
    constructor ()
      ensures Valid() && fresh(board)
      ensures State() == Snapshot(InitialBoard(), White, AllRights(), None, None)
      ensures pending == None && history == [] && selected == None
    {
      board := new Cell[64](k requires 0 <= k < 64 => InitialBoard()[k]);
      turn := White;
      rights := AllRights();
      ep := None;
      lastMove := None;
      pending := None;
      history := [];
      selected := None;
      new;
      assert board[..] == InitialBoard();
    }

    // -------------------------------------------------------------------
    // Queries: they read the board and change nothing
    // -------------------------------------------------------------------

    /** `pathClear`: walk from the square after (fr, fc) towards (tr, tc),
        one step of the sign of each delta at a time, stopping at (tr, tc). */
    method PathClear(fr: int, fc: int, tr: int, tc: int) returns (clear: bool)
      requires Valid() && OnBoard(fr, fc) && OnBoard(tr, tc) && Rules.Aligned(fr, fc, tr, tc)
      ensures clear == Rules.PathClear(Cells(), fr, fc, tr, tc)
    {
      var dr := if tr > fr then 1 else if tr < fr then -1 else 0;
      var dc := if tc > fc then 1 else if tc < fc then -1 else 0;
      var r, c := fr + dr, fc + dc;
      ghost var k := 1;
      ghost var n: int := Rules.Dist(fr, fc, tr, tc);
      while r != tr || c != tc
        invariant 1 <= k && (k <= n || (n == 0 && k == 1))
        invariant r == Rules.Toward(fr, tr, k) && c == Rules.Toward(fc, tc, k)
        invariant (r == tr && c == tc) <==> (k == n || n == 0)
        invariant Rules.PathClear(Cells(), fr, fc, tr, tc) == Rules.ClearFrom(Cells(), fr, fc, tr, tc, k)
        decreases n - k
      {
        if board[Idx(r, c)].Some? {
          return false;
        }
        r, c := r + dr, c + dc;
        k := k + 1;
      }
      return true;
    }

    /** The piece geometry of `basicMove` without its castling branch. */
    method Reaches(piece: Piece, fr: int, fc: int, tr: int, tc: int) returns (ok: bool)
      requires Valid() && OnBoard(fr, fc) && OnBoard(tr, tc)
      ensures ok == Rules.Reaches(Pos(), piece, fr, fc, tr, tc)
    {
      var dr, dc := tr - fr, tc - fc;
      match piece.kind {
        case Pawn =>
          var dir := if piece.color == White then -1 else 1;
          if dc == 0 && dr == dir && board[Idx(tr, tc)].None? {
            return true;
          }
          if dc == 0 && dr == 2 * dir && board[Idx(tr, tc)].None?
             && board[Idx(fr + dir, fc)].None? && fr == (if piece.color == White then 6 else 1) {
            return true;
          }
          if Abs(dc) == 1 && dr == dir {
            if board[Idx(tr, tc)].Some? && board[Idx(tr, tc)].value.color != piece.color {
              return true;
            }
            if ep.Some? && tr == ep.value.row && tc == ep.value.col {
              return true;
            }
          }
          return false;
        case Rook =>
          if fr != tr && fc != tc {
            return false;
          }
          ok := PathClear(fr, fc, tr, tc);
        case Bishop =>
          if Abs(dr) != Abs(dc) {
            return false;
          }
          ok := PathClear(fr, fc, tr, tc);
        case Queen =>
          if fr == tr || fc == tc || Abs(dr) == Abs(dc) {
            ok := PathClear(fr, fc, tr, tc);
            return;
          }
          return false;
        case Knight =>
          return (Abs(dr) == 2 && Abs(dc) == 1) || (Abs(dr) == 1 && Abs(dc) == 2);
        case King =>
          return Abs(dr) <= 1 && Abs(dc) <= 1;
      }
    }

    /** `basicMove`: the geometry of the piece on (fr, fc); a king shifting
        two columns along its row asks `validateCastling`. */
    method BasicMove(piece: Piece, fr: int, fc: int, tr: int, tc: int) returns (ok: bool)
      requires Valid() && OnBoard(fr, fc) && OnBoard(tr, tc) && board[Idx(fr, fc)] == Some(piece)
      ensures ok == Rules.BasicMove(Pos(), piece, fr, fc, tr, tc)
    {
      if piece.kind == King && !(Abs(tr - fr) <= 1 && Abs(tc - fc) <= 1) {
        if tr - fr == 0 && Abs(tc - fc) == 2 {
          ok := ValidateCastling(fr, fc, tr, tc, piece.color);
          return;
        }
        return false;
      }
      ok := Reaches(piece, fr, fc, tr, tc);
    }

    /** The first loop of `validateCastling`: the cells of row fr from
        column c towards the rook's corner, short of it, are empty. */
    method RookPathEmpty(fr: int, c: int, rookCol: int, step: int) returns (empty: bool)
      requires Valid() && 0 <= fr < 8 && Rules.Heading(c, rookCol, step)
      ensures empty == Rules.AllUpTo(Rules.EmptyIn(Cells(), fr), c, rookCol, step)
    {
      ghost var f := Rules.EmptyIn(Cells(), fr);
      var x := c;
      while x != rookCol
        invariant Rules.Heading(x, rookCol, step)
        invariant Rules.AllUpTo(f, c, rookCol, step) == Rules.AllUpTo(f, x, rookCol, step)
        decreases Abs(rookCol - x)
      {
        if board[Idx(fr, x)].Some? {
          assert !f(x);
          return false;
        }
        assert f(x);
        x := x + step;
      }
      return true;
    }

    /** One square of the second loop of `validateCastling`. */
    method SafeAt(r: int, c: int, color: Color) returns (safe: bool)
      requires Valid() && 0 <= r < 8 && 0 <= c < 8
      ensures safe == Rules.SafeIn(Pos(), r, color)(c)
    {
      var attacked := SquareAttacked(r, c, color);
      safe := !attacked;
    }

    /** The second loop of `validateCastling`: no square of row fr from
        column c up to, not including, stop is attacked. */
    method TransitSafe(fr: int, c: int, stop: int, step: int, color: Color) returns (safe: bool)
      requires Valid() && 0 <= fr < 8 && Rules.Heading(c, stop, step)
      ensures safe == Rules.AllUpTo(Rules.SafeIn(Pos(), fr, color), c, stop, step)
    {
      ghost var p := Pos();
      ghost var f := Rules.SafeIn(p, fr, color);
      var x := c;
      while x != stop
        invariant Pos() == p
        invariant Rules.Heading(x, stop, step)
        invariant Rules.AllUpTo(f, c, stop, step) == Rules.AllUpTo(f, x, stop, step)
        decreases Abs(stop - x)
      {
        var ok := SafeAt(fr, x, color);
        if !ok {
          return false;
        }
        x := x + step;
      }
      return true;
    }

    /** `validateCastling`: the king is not in check, the side's flag is
        set, the row towards the rook's corner is empty, and the squares the
        king crosses are not attacked. */
    method ValidateCastling(fr: int, fc: int, tr: int, tc: int, color: Color) returns (ok: bool)
      requires Valid() && OnBoard(fr, fc) && OnBoard(tr, tc) && tr == fr && Abs(tc - fc) == 2
      requires board[Idx(fr, fc)] == Some(Piece(color, King))
      ensures Rules.HasKing(Cells(), color)
      ensures ok == Rules.ValidateCastling(Pos(), fr, fc, tr, tc, color)
    {
      assert Cells()[Idx(fr, fc)] == Some(Piece(color, King));
      var inCheck := IsKingInCheck(color);
      if inCheck {
        return false;
      }
      var kingSide := tc > fc;
      if !(if kingSide then rights.Of(color).kingSide else rights.Of(color).queenSide) {
        return false;
      }
      ok := CastlingPath(fr, fc, tc, color);
    }

    /** The two loops of `validateCastling`, in order. */
    method CastlingPath(fr: int, fc: int, tc: int, color: Color) returns (ok: bool)
      requires Valid() && OnBoard(fr, fc) && OnBoard(fr, tc) && Abs(tc - fc) == 2
      ensures var step := if tc > fc then 1 else -1;
              var rookCol := if tc > fc then 7 else 0;
              ok == (Rules.AllUpTo(Rules.EmptyIn(Cells(), fr), fc + step, rookCol, step)
                     && Rules.AllUpTo(Rules.SafeIn(Pos(), fr, color), fc, tc + step, step))
    {
      var rookCol := if tc > fc then 7 else 0;
      var step := if tc > fc then 1 else -1;
      ghost var p := Pos();
      var empty := RookPathEmpty(fr, fc + step, rookCol, step);
      if !empty {
        return false;
      }
      assert Pos() == p;
      ok := TransitSafe(fr, fc, tc + step, step, color);
    }

    /** `squareAttacked`: scan the board for a piece of the opponent of
        `color` that reaches (r, c). */
    method SquareAttacked(r: int, c: int, color: Color) returns (attacked: bool)
      requires Valid() && OnBoard(r, c)
      ensures attacked == Rules.SquareAttacked(Pos(), r, c, color)
    {
      ghost var p := Pos();
      ghost var f := Rules.Attackers(p, r, c, color);
      var opponent := Opponent(color);
      for i := 0 to 8
        invariant Pos() == p
        invariant Rules.ScanFrom(f, 0, 0) == Rules.ScanFrom(f, i, 0)
      {
        for j := 0 to 8
          invariant Pos() == p
          invariant Rules.ScanFrom(f, 0, 0) == if j < 8 then Rules.ScanFrom(f, i, j) else Rules.ScanFrom(f, i + 1, 0)
        {
          var cell := board[Idx(i, j)];
          if cell.Some? && cell.value.color == opponent {
            var reach := Reaches(cell.value, i, j, r, c);
            if reach {
              assert f(i, j);
              return true;
            }
          }
          assert !f(i, j);
        }
      }
      return false;
    }

    /** `findKing`: the first king of the colour, row by row. */
    method FindKing(color: Color) returns (sq: Option<Square>)
      requires Valid()
      ensures sq == Rules.FindKing(Cells(), color)
    {
      for r := 0 to 8
        invariant forall j :: 0 <= j < Idx(r, 0) ==> board[j] != Some(Piece(color, King))
      {
        for c := 0 to 8
          invariant forall j :: 0 <= j < Idx(r, c) ==> board[j] != Some(Piece(color, King))
        {
          if board[Idx(r, c)] == Some(Piece(color, King)) {
            Rules.FindKingIsFirst(Cells(), color, r, c);
            return Some(Square(r, c));
          }
        }
      }
      return None;
    }

    /** `isKingInCheck`: the square of the colour's king is attacked. */
    method IsKingInCheck(color: Color) returns (check: bool)
      requires Valid() && Rules.HasKing(Cells(), color)
      ensures check == Rules.IsKingInCheck(Pos(), color)
    {
      var k := FindKing(color);
      check := SquareAttacked(k.value.row, k.value.col, color);
    }

    // -------------------------------------------------------------------
    // Queries that move a piece on the board and put it back
    // -------------------------------------------------------------------

    /** `causesSelfCheck`: toggle the piece from (fr, fc) to (tr, tc), ask
        whether the side to move is in check, and restore both squares. */
    method CausesSelfCheck(fr: int, fc: int, tr: int, tc: int) returns (check: bool)
      requires Valid() && OnBoard(fr, fc) && OnBoard(tr, tc)
      requires Rules.HasKing(Rules.Toggle(Cells(), fr, fc, tr, tc), turn)
      modifies board
      ensures board[..] == old(board[..])
      ensures check == Rules.CausesSelfCheck(old(Pos()), fr, fc, tr, tc)
    {
      ghost var before := Pos();
      var temp := board[Idx(tr, tc)];
      board[Idx(tr, tc)] := board[Idx(fr, fc)];
      board[Idx(fr, fc)] := None;
      assert Pos() == before.(board := Rules.Toggle(before.board, fr, fc, tr, tc));
      check := IsKingInCheck(turn);
      board[Idx(fr, fc)] := board[Idx(tr, tc)];
      board[Idx(tr, tc)] := temp;
      assert board[..] == before.board;
    }

    /** `isValidMove`: reject an empty origin, a destination held by the side
        to move, a move the geometry refuses, and a move into check. */
    method IsValidMove(fr: int, fc: int, tr: int, tc: int) returns (ok: bool)
      requires Valid() && OnBoard(fr, fc) && OnBoard(tr, tc) && Rules.HasKing(Cells(), turn)
      modifies board
      ensures board[..] == old(board[..])
      ensures ok == Rules.IsValidMove(old(Pos()), fr, fc, tr, tc)
    {
      var piece := board[Idx(fr, fc)];
      if piece.None? {
        return false;
      }
      var dest := board[Idx(tr, tc)];
      if dest.Some? && dest.value.color == turn {
        return false;
      }
      var basic := BasicMove(piece.value, fr, fc, tr, tc);
      if !basic {
        return false;
      }
      Rules.ToggleKeepsKing(Cells(), turn, fr, fc, tr, tc);
      var self := CausesSelfCheck(fr, fc, tr, tc);
      return !self;
    }

    /** The two inner loops of `hasAnyLegalMove`: try every destination of
        the piece on (r, c), row by row. */
    method HasLegalMoveFrom(r: int, c: int) returns (any: bool)
      requires Valid() && OnBoard(r, c) && Rules.HasKing(Cells(), turn)
      modifies board
      ensures board[..] == old(board[..])
      ensures any == Rules.PieceCanMove(old(Pos()), r, c)
    {
      ghost var p := Pos();
      ghost var f := Rules.Destinations(p, r, c);
      Rules.DestinationScanDecides(p, r, c);
      for tr := 0 to 8
        invariant board[..] == p.board
        invariant Rules.ScanFrom(f, 0, 0) == Rules.ScanFrom(f, tr, 0)
      {
        for tc := 0 to 8
          invariant board[..] == p.board
          invariant Rules.ScanFrom(f, 0, 0) == if tc < 8 then Rules.ScanFrom(f, tr, tc) else Rules.ScanFrom(f, tr + 1, 0)
        {
          assert Pos() == p;
          var ok := IsValidMove(r, c, tr, tc);
          if ok {
            assert f(tr, tc);
            return true;
          }
          assert !f(tr, tc);
        }
      }
      return false;
    }

    /** `hasAnyLegalMove`: try every destination of every piece of the colour. */
    method HasAnyLegalMove(color: Color) returns (any: bool)
      requires Valid() && Rules.HasKing(Cells(), turn)
      modifies board
      ensures board[..] == old(board[..])
      ensures any == Rules.HasAnyLegalMove(old(Pos()), color)
    {
      ghost var p := Pos();
      ghost var g := Rules.Movers(p, color);
      Rules.MoverScanDecides(p, color);
      for r := 0 to 8
        invariant board[..] == p.board
        invariant Rules.ScanFrom(g, 0, 0) == Rules.ScanFrom(g, r, 0)
      {
        for c := 0 to 8
          invariant board[..] == p.board
          invariant Rules.ScanFrom(g, 0, 0) == if c < 8 then Rules.ScanFrom(g, r, c) else Rules.ScanFrom(g, r + 1, 0)
        {
          if board[Idx(r, c)].Some? && board[Idx(r, c)].value.color == color {
            assert Pos() == p;
            any := HasLegalMoveFrom(r, c);
            if any {
              assert g(r, c);
              return;
            }
          }
          assert !g(r, c);
        }
      }
      return false;
    }

    /** `checkGameEnd`: checkmate when the side to move is in check and has
        no legal move, stalemate when it is not in check and has none. */
    method CheckGameEnd() returns (status: Rules.Status)
      requires Valid() && Rules.HasKing(Cells(), turn)
      modifies board
      ensures board[..] == old(board[..])
      ensures status == Rules.GameStatus(old(Pos()))
    {
      var check := IsKingInCheck(turn);
      var any := HasAnyLegalMove(turn);
      if check && !any {
        status := Rules.Checkmate;
      } else if !check && !any {
        status := Rules.Stalemate;
      } else {
        status := Rules.Ongoing;
      }
    }

    // -------------------------------------------------------------------
    // Commands
    // -------------------------------------------------------------------

    /** `updateCastlingRights`. */
    method UpdateCastlingRights(piece: Piece, fr: int, fc: int)
      modifies this`rights
      ensures rights == UpdatedRights(old(rights), piece, fc)
    {
      if piece.kind == King {
        rights := rights.With(piece.color, rights.Of(piece.color).(kingSide := false));
        rights := rights.With(piece.color, rights.Of(piece.color).(queenSide := false));
      }
      if piece.kind == Rook {
        if fc == 0 {
          rights := rights.With(piece.color, rights.Of(piece.color).(queenSide := false));
        }
        if fc == 7 {
          rights := rights.With(piece.color, rights.Of(piece.color).(kingSide := false));
        }
      }
    }

    /** `finalizeMove`: update the castling rights, set or clear the
        en-passant target, record the move and pass the turn. */
    method FinalizeMove(piece: Piece, fr: int, fc: int, tr: int, tc: int)
      requires Valid() && OnBoard(fr, fc) && OnBoard(tr, tc)
      modifies this
      ensures Valid()
      ensures rights == UpdatedRights(old(rights), piece, fc)
      ensures ep == NextEp(piece, fr, fc, tr, tc)
      ensures lastMove == Some(Move(Square(fr, fc), Square(tr, tc)))
      ensures turn == Opponent(old(turn))
      ensures board == old(board) && pending == old(pending) && history == old(history)
      ensures selected == old(selected)
    {
      UpdateCastlingRights(piece, fr, fc);
      if piece.kind == Pawn && Abs(tr - fr) == 2 {
        ep := Some(Square((fr + tr) / 2, fc));
      } else {
        ep := None;
      }
      lastMove := Some(Move(Square(fr, fc), Square(tr, tc)));
      turn := if turn == White then Black else White;
    }

    /** The board half of `makeMove`: relocate the castling rook, remove a
        pawn taken en passant, and move the piece. */
    method MoveCells(fr: int, fc: int, tr: int, tc: int)
      requires Valid() && OnBoard(fr, fc) && OnBoard(tr, tc) && board[Idx(fr, fc)].Some?
      modifies board
      ensures board[..] == MoveBoard(old(Pos()), fr, fc, tr, tc)
    {
      ghost var p := Pos();
      var piece := board[Idx(fr, fc)].value;
      if piece.kind == King && Abs(tc - fc) == 2 {
        var rookFrom := if tc > fc then 7 else 0;
        var rookTo := if tc > fc then tc - 1 else tc + 1;
        board[Idx(fr, rookTo)] := board[Idx(fr, rookFrom)];
        board[Idx(fr, rookFrom)] := None;
      }
      if piece.kind == Pawn && ep.Some? && tr == ep.value.row && tc == ep.value.col {
        var dir := if turn == White then 1 else -1;
        board[Idx(tr + dir, tc)] := None;
      }
      board[Idx(tr, tc)] := Some(piece);
      board[Idx(fr, fc)] := None;
    }

    /** `makeMove`: save a snapshot, relocate the castling rook, remove a pawn
        taken en passant, move the piece; then either wait for a promotion
        choice or finalize. */
    method MakeMove(fr: int, fc: int, tr: int, tc: int)
      requires Valid() && OnBoard(fr, fc) && OnBoard(tr, tc) && board[Idx(fr, fc)].Some?
      modifies this, board
      ensures Valid() && board == old(board)
      ensures history == old(history) + [old(State())] && selected == old(selected)
      ensures Moved(old(State()), old(pending), fr, fc, tr, tc, State(), pending)
    {
      history := history + [State()];
      var piece := board[Idx(fr, fc)].value;
      MoveCells(fr, fc, tr, tc);
      if piece.kind == Pawn && (tr == 0 || tr == 7) {
        pending := Some(Promotion(Square(tr, tc), piece.color));
        return;
      }
      FinalizeMove(piece, fr, fc, tr, tc);
    }

    /** The promotion choice: put a piece of the chosen kind and the pending
        colour on the promotion square, finalize, and clear the pending
        promotion.  As in the source, the move is finalized with the origin
        of the last recorded move (row 0, column 0 when there is none), not
        with the square the pawn came from. */
    method ChoosePromotion(kind: Kind)
      requires Valid() && pending.Some? && kind in {Queen, Rook, Bishop, Knight}
      modifies this, board
      ensures Valid() && board == old(board) && history == old(history) && pending == None
      ensures selected == old(selected)
      ensures var sq := old(pending).value.square;
              var piece := Piece(old(pending).value.color, kind);
              var from := if old(lastMove).Some? then old(lastMove).value.from else Square(0, 0);
              && board[..] == old(board[..])[Idx(sq.row, sq.col) := Some(piece)]
              && rights == UpdatedRights(old(rights), piece, from.col)
              && ep == None
              && lastMove == Some(Move(from, sq))
              && turn == Opponent(old(turn))
    {
      var pp := pending.value;
      board[Idx(pp.square.row, pp.square.col)] := Some(Piece(pp.color, kind));
      var piece := board[Idx(pp.square.row, pp.square.col)].value;
      var fr := if lastMove.Some? then lastMove.value.from.row else 0;
      var fc := if lastMove.Some? then lastMove.value.from.col else 0;
      FinalizeMove(piece, fr, fc, pp.square.row, pp.square.col);
      pending := None;
    }

    /** `undoMove`: pop the last snapshot and restore the board, the turn,
        the castling rights, the en-passant target and the last move.  The
        pending promotion is left as it is; with no snapshot nothing happens. */
    method UndoMove()
      requires Valid()
      modifies this
      ensures Valid() && pending == old(pending) && selected == old(selected)
      ensures old(history) == [] ==> history == [] && board == old(board) && State() == old(State())
      ensures old(history) != [] ==>
                && history == old(history)[..|old(history)| - 1]
                && State() == old(history)[|old(history)| - 1]
                && fresh(board)
    {
      if |history| == 0 {
        return;
      }
      var prev := history[|history| - 1];
      history := history[..|history| - 1];
      board := new Cell[64](k requires 0 <= k < 64 => prev.board[k]);
      turn := prev.turn;
      rights := prev.rights;
      ep := prev.ep;
      lastMove := prev.lastMove;
      assert board[..] == prev.board;
    }

    /** A move followed by an undo gives back the state before the move and
        the history before it, for every kind of move including castling, en
        passant and a pawn waiting for promotion; only the pending promotion
        such a pawn set survives the undo. */
    method MoveThenUndo(fr: int, fc: int, tr: int, tc: int)
      requires Valid() && OnBoard(fr, fc) && OnBoard(tr, tc) && board[Idx(fr, fc)].Some?
      modifies this, board
      ensures Valid() && State() == old(State()) && history == old(history)
      ensures var piece := old(board[Idx(fr, fc)].value);
              pending == if Promotes(piece, tr) then Some(Promotion(Square(tr, tc), piece.color))
                         else old(pending)
    {
      MakeMove(fr, fc, tr, tc);
      UndoMove();
    }

    /** The move attempt of the second click: the move is made exactly
        when `isValidMove` accepts it; otherwise nothing changes. */
    method TryMove(fr: int, fc: int, tr: int, tc: int) returns (moved: bool)
      requires Valid() && OnBoard(fr, fc) && OnBoard(tr, tc) && Rules.HasKing(Cells(), turn)
      modifies this, board
      ensures Valid() && board == old(board) && selected == old(selected)
      ensures moved == Rules.IsValidMove(old(Pos()), fr, fc, tr, tc)
      ensures moved ==> history == old(history) + [old(State())]
                        && Moved(old(State()), old(pending), fr, fc, tr, tc, State(), pending)
      ensures !moved ==> State() == old(State()) && history == old(history) && pending == old(pending)
    {
      moved := IsValidMove(fr, fc, tr, tc);
      if moved {
        MakeMove(fr, fc, tr, tc);
      }
    }

    /** The first click of `handleClick`: a piece of the side to move on
        (r, c) becomes the selection; any other click selects nothing. */
    method Select(r: int, c: int)
      requires Valid() && OnBoard(r, c)
      modifies this`selected
      ensures Valid() && State() == old(State())
      ensures selected == if OwnedBy(board[Idx(r, c)], turn) then Some(Square(r, c)) else None
    {
      if board[Idx(r, c)].Some? && board[Idx(r, c)].value.color == turn {
        selected := Some(Square(r, c));
      } else {
        selected := None;
      }
    }

    /** The second click of `handleClick`: the move from the selected square
        to (r, c) is made when valid, and the selection is dropped either way. */
    method MoveSelected(r: int, c: int) returns (moved: bool)
      requires Valid() && OnBoard(r, c) && Rules.HasKing(Cells(), turn) && selected.Some?
      modifies this, board
      ensures Valid() && board == old(board) && selected == None
      ensures var from := old(selected).value;
              && moved == Rules.IsValidMove(old(Pos()), from.row, from.col, r, c)
              && (moved ==> history == old(history) + [old(State())]
                            && Moved(old(State()), old(pending), from.row, from.col, r, c, State(), pending))
              && (!moved ==> State() == old(State()) && history == old(history) && pending == old(pending))
    {
      var from := selected.value;
      moved := TryMove(from.row, from.col, r, c);
      ghost var after := State();
      selected := None;
      assert State() == after;
    }

    /** `handleClick` on (r, c).  While a promotion waits the click is
        ignored; otherwise it is the second click when a square is selected
        and the first click when none is.  The colour of the selected piece
        is checked when it is selected, not when it moves, and undo keeps the
        selection. */
    method Click(r: int, c: int) returns (moved: bool)
      requires Valid() && OnBoard(r, c) && Rules.HasKing(Cells(), turn)
      modifies this, board
      ensures Valid() && board == old(board)
      ensures old(pending).Some? ==>
                && !moved && State() == old(State()) && history == old(history)
                && pending == old(pending) && selected == old(selected)
      ensures old(pending).None? && old(selected).None? ==>
                && !moved && State() == old(State()) && history == old(history) && pending == old(pending)
                && selected == if OwnedBy(old(board[Idx(r, c)]), old(turn)) then Some(Square(r, c)) else None
      ensures old(pending).None? && old(selected).Some? ==>
                var from := old(selected).value;
                && selected == None
                && moved == Rules.IsValidMove(old(Pos()), from.row, from.col, r, c)
                && (moved ==> history == old(history) + [old(State())]
                              && Moved(old(State()), old(pending), from.row, from.col, r, c, State(), pending))
                && (!moved ==> State() == old(State()) && history == old(history) && pending == old(pending))
    {
      if pending.Some? {
        return false;
      }
      if selected.Some? {
        moved := MoveSelected(r, c);
      } else {
        moved := false;
        Select(r, c);
      }
    }
  }
}
