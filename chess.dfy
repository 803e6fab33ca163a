/** Pieces, squares and the board of the chess engine.

    The engine keeps an 8x8 grid of optional pieces.  Row 0 is Black's back
    rank and row 7 White's; column 0 is the a-file.  Here the grid is one
    sequence of 64 cells in row-major order, cell (r, c) at index 8 * r + c.
 */
module Chess {

  datatype Option<T> = None | Some(value: T)

  datatype Color = White | Black

  datatype Kind = Pawn | Knight | Bishop | Rook | Queen | King

  datatype Piece = Piece(color: Color, kind: Kind)

  /** An empty square or the piece standing on it. */
  type Cell = Option<Piece>

  type Board = b: seq<Cell> | |b| == 64 witness EmptyBoard()

  function EmptyBoard(): (b: seq<Cell>)
    ensures |b| == 64
  {
    seq(64, i => None)
  }

  datatype Square = Square(row: int, col: int)

  /** The from and to squares of the last finalized move. */
  datatype Move = Move(from: Square, to: Square)

  /** A pawn that reached the last rank and waits for its new kind. */
  datatype Promotion = Promotion(square: Square, color: Color)

  /** Castling availability of one colour. */
  datatype SideRights = SideRights(kingSide: bool, queenSide: bool)

  datatype CastlingRights = CastlingRights(white: SideRights, black: SideRights)
  {
    function Of(c: Color): SideRights {
      if c == White then white else black
    }

    function With(c: Color, s: SideRights): (r: CastlingRights)
      ensures r.Of(c) == s && r.Of(Opponent(c)) == Of(Opponent(c))
    {
      if c == White then this.(white := s) else this.(black := s)
    }
  }

  /** The part of the game state that the move rules read. */
  datatype Position = Position(board: Board, turn: Color, rights: CastlingRights, ep: Option<Square>)

  function Opponent(c: Color): Color {
    if c == White then Black else White
  }

  predicate OnBoard(r: int, c: int) {
    0 <= r < 8 && 0 <= c < 8
  }

  function Idx(r: int, c: int): int {
    8 * r + c
  }

  function At(b: Board, r: int, c: int): Cell
    requires OnBoard(r, c)
  {
    b[Idx(r, c)]
  }

  /** True when the cell holds a piece of colour c. */
  predicate OwnedBy(cell: Cell, c: Color) {
    cell.Some? && cell.value.color == c
  }

  function Abs(x: int): nat {
    if x < 0 then -x else x
  }

  /** The square of the cell at a row-major index. */
  function SquareOf(k: int): Square
    requires 0 <= k < 64
  {
    Square(k / 8, k % 8)
  }
}
