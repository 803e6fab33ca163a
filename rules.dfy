/** The read-only move rules: piece geometry, path clearance, castling
    conditions, attack and check detection, legality, and the
    checkmate/stalemate classification.  Each is a declarative function of a
    Position; the engine's loops (module Engine) are proved equal to them.
 */
module Rules {
  import opened Chess

  // ---------------------------------------------------------------------
  // Path clearance
  // ---------------------------------------------------------------------

  /** The coordinate k steps from `from` in the direction of `to` (the sign of the delta). */
  function Toward(from: int, to: int, k: int): int {
    if from < to then from + k else if to < from then from - k else from
  }

  /** Same row, same column or same diagonal. */
  predicate Aligned(fr: int, fc: int, tr: int, tc: int) {
    fr == tr || fc == tc || Abs(tr - fr) == Abs(tc - fc)
  }

  /** Number of steps from one square to the other along a line. */
  function Dist(fr: int, fc: int, tr: int, tc: int): nat {
    if Abs(tr - fr) < Abs(tc - fc) then Abs(tc - fc) else Abs(tr - fr)
  }

  /** The scan of `pathClear`: the squares k, k + 1, ... steps along the
      line, short of (tr, tc), are empty. */
  ghost predicate ClearFrom(b: Board, fr: int, fc: int, tr: int, tc: int, k: int)
    requires OnBoard(fr, fc) && OnBoard(tr, tc) && Aligned(fr, fc, tr, tc) && 1 <= k
    decreases Dist(fr, fc, tr, tc) - k
  {
    k >= Dist(fr, fc, tr, tc)
    || (At(b, Toward(fr, tr, k), Toward(fc, tc, k)) == None && ClearFrom(b, fr, fc, tr, tc, k + 1))
  }

  /** `pathClear`: every square strictly between the two aligned squares is empty. */
  ghost predicate PathClear(b: Board, fr: int, fc: int, tr: int, tc: int)
    requires OnBoard(fr, fc) && OnBoard(tr, tc) && Aligned(fr, fc, tr, tc)
  {
    ClearFrom(b, fr, fc, tr, tc, 1)
  }

  /** The scan from step k checks exactly the steps k through Dist - 1. */
  lemma {:induction false} ClearFromMeans(b: Board, fr: int, fc: int, tr: int, tc: int, k: int)
    requires OnBoard(fr, fc) && OnBoard(tr, tc) && Aligned(fr, fc, tr, tc) && 1 <= k
    ensures ClearFrom(b, fr, fc, tr, tc, k) <==>
              forall j :: k <= j < Dist(fr, fc, tr, tc) ==> At(b, Toward(fr, tr, j), Toward(fc, tc, j)) == None
    decreases Dist(fr, fc, tr, tc) - k
  {
    if k < Dist(fr, fc, tr, tc) {
      ClearFromMeans(b, fr, fc, tr, tc, k + 1);
    }
  }

  /** The path is clear exactly when no square strictly between the ends holds a piece. */
  lemma PathClearMeans(b: Board, fr: int, fc: int, tr: int, tc: int)
    requires OnBoard(fr, fc) && OnBoard(tr, tc) && Aligned(fr, fc, tr, tc)
    ensures PathClear(b, fr, fc, tr, tc) <==>
              forall k :: 0 < k < Dist(fr, fc, tr, tc) ==> At(b, Toward(fr, tr, k), Toward(fc, tc, k)) == None
  {
    ClearFromMeans(b, fr, fc, tr, tc, 1);
  }

  /** Neither end of the path is inspected: changing the destination (or the
      origin) cell never changes the answer. */
  lemma {:induction false} PathClearIgnoresEnds(b: Board, fr: int, fc: int, tr: int, tc: int, x: Cell, y: Cell, k: int)
    requires OnBoard(fr, fc) && OnBoard(tr, tc) && Aligned(fr, fc, tr, tc) && 1 <= k
    ensures ClearFrom(b[Idx(tr, tc) := x][Idx(fr, fc) := y], fr, fc, tr, tc, k) == ClearFrom(b, fr, fc, tr, tc, k)
    decreases Dist(fr, fc, tr, tc) - k
  {
    if k < Dist(fr, fc, tr, tc) {
      PathClearIgnoresEnds(b, fr, fc, tr, tc, x, y, k + 1);
      var r, c := Toward(fr, tr, k), Toward(fc, tc, k);
      assert (r, c) != (tr, tc) && (r, c) != (fr, fc);
    }
  }

  // ---------------------------------------------------------------------
  // Piece geometry
  // ---------------------------------------------------------------------

  /** Row direction of a pawn: White moves towards row 0, Black towards row 7. */
  function Forward(c: Color): int {
    if c == White then -1 else 1
  }

  /** The row a pawn's double step starts from. */
  function HomeRow(c: Color): int {
    if c == White then 6 else 1
  }

  /** The pawn rule: one step onto an empty square, two steps from the home
      row over two empty squares, or one diagonal step onto an opposing piece
      or onto the en-passant target. */
  ghost predicate PawnReaches(p: Position, color: Color, fr: int, fc: int, tr: int, tc: int)
    requires OnBoard(fr, fc) && OnBoard(tr, tc)
  {
    var dir := Forward(color);
    var dr, dc := tr - fr, tc - fc;
    || (dc == 0 && dr == dir && At(p.board, tr, tc) == None)
    || (dc == 0 && dr == 2 * dir && At(p.board, tr, tc) == None
        && At(p.board, fr + dir, fc) == None && fr == HomeRow(color))
    || (Abs(dc) == 1 && dr == dir
        && (OwnedBy(At(p.board, tr, tc), Opponent(color)) || p.ep == Some(Square(tr, tc))))
  }

  /** The movement rule of each kind without the castling branch of the king:
      what `basicMove` accepts apart from a two-column king shift. */
  ghost predicate Reaches(p: Position, piece: Piece, fr: int, fc: int, tr: int, tc: int)
    requires OnBoard(fr, fc) && OnBoard(tr, tc)
  {
    var dr, dc := tr - fr, tc - fc;
    match piece.kind
    case Pawn => PawnReaches(p, piece.color, fr, fc, tr, tc)
    case Rook => (fr == tr || fc == tc) && PathClear(p.board, fr, fc, tr, tc)
    case Bishop => Abs(dr) == Abs(dc) && PathClear(p.board, fr, fc, tr, tc)
    case Queen => Aligned(fr, fc, tr, tc) && PathClear(p.board, fr, fc, tr, tc)
    case Knight => (Abs(dr) == 2 && Abs(dc) == 1) || (Abs(dr) == 1 && Abs(dc) == 2)
    case King => Abs(dr) <= 1 && Abs(dc) <= 1
  }

  /** A pawn only ever moves forward; straight ahead only onto an empty square,
      and sideways only by one column onto an opposing piece or the en-passant
      target; two rows only from its home row over an empty square. */
  lemma PawnGeometry(p: Position, color: Color, fr: int, fc: int, tr: int, tc: int)
    requires OnBoard(fr, fc) && OnBoard(tr, tc)
    requires Reaches(p, Piece(color, Pawn), fr, fc, tr, tc)
    ensures tr - fr == Forward(color) || tr - fr == 2 * Forward(color)
    ensures tc == fc ==> At(p.board, tr, tc) == None
    ensures tc != fc ==> Abs(tc - fc) == 1 && tr - fr == Forward(color)
                         && (OwnedBy(At(p.board, tr, tc), Opponent(color)) || p.ep == Some(Square(tr, tc)))
    ensures tr - fr == 2 * Forward(color) ==>
              tc == fc && fr == HomeRow(color) && At(p.board, fr + Forward(color), fc) == None
  {
  }

  // ---------------------------------------------------------------------
  // Kings
  // ---------------------------------------------------------------------

  ghost predicate HasKing(b: Board, color: Color) {
    exists k :: 0 <= k < 64 && b[k] == Some(Piece(color, King))
  }

  /** The first king of the colour in row-major order, starting at index k. */
  function FindKingFrom(b: Board, color: Color, k: nat): (r: Option<Square>)
    requires k <= 64
    ensures r.Some? ==> OnBoard(r.value.row, r.value.col) && k <= Idx(r.value.row, r.value.col)
                        && At(b, r.value.row, r.value.col) == Some(Piece(color, King))
                        && forall j :: k <= j < Idx(r.value.row, r.value.col) ==> b[j] != Some(Piece(color, King))
    ensures r.None? ==> forall j :: k <= j < 64 ==> b[j] != Some(Piece(color, King))
    decreases 64 - k
  {
    if k == 64 then None
    else if b[k] == Some(Piece(color, King)) then Some(SquareOf(k))
    else FindKingFrom(b, color, k + 1)
  }

  /** The king of the colour, scanning rows then columns; None when there is none. */
  function FindKing(b: Board, color: Color): (r: Option<Square>)
    ensures r.Some? <==> HasKing(b, color)
  {
    FindKingFrom(b, color, 0)
  }

  /** A square holding a king of the colour, with no such king before it, is
      what FindKing returns. */
  lemma FindKingIsFirst(b: Board, color: Color, r: int, c: int)
    requires OnBoard(r, c) && At(b, r, c) == Some(Piece(color, King))
    requires forall j :: 0 <= j < Idx(r, c) ==> b[j] != Some(Piece(color, King))
    ensures FindKing(b, color) == Some(Square(r, c))
  {
    var s := FindKing(b, color).value;
    assert Idx(s.row, s.col) == Idx(r, c);
  }

  // ---------------------------------------------------------------------
  // Board scans
  // ---------------------------------------------------------------------

  /** (i', j') comes at or after (i, j) in row-major order. */
  predicate AtOrAfter(i': int, j': int, i: int, j: int) {
    i < i' || (i == i' && j <= j')
  }

  /** The engine's nested row and column loops: some square at (i, j) or
      after it, row by row, satisfies f. */
  ghost predicate ScanFrom(f: (int, int) -> bool, i: int, j: int)
    requires 0 <= i <= 8 && 0 <= j < 8
    decreases 8 - i, 8 - j
  {
    i < 8 && (f(i, j) || if j < 7 then ScanFrom(f, i, j + 1) else ScanFrom(f, i + 1, 0))
  }

  /** The scan from (i, j) finds exactly the squares at or after (i, j) that satisfy f. */
  lemma {:induction false} ScanFromMeans(f: (int, int) -> bool, i: int, j: int)
    requires 0 <= i <= 8 && 0 <= j < 8
    ensures ScanFrom(f, i, j) <==> exists i', j' :: OnBoard(i', j') && AtOrAfter(i', j', i, j) && f(i', j')
    decreases 8 - i, 8 - j
  {
    if i < 8 {
      var ni, nj := if j < 7 then i else i + 1, if j < 7 then j + 1 else 0;
      ScanFromMeans(f, ni, nj);
      if exists i', j' :: OnBoard(i', j') && AtOrAfter(i', j', i, j) && f(i', j') {
        var i', j' :| OnBoard(i', j') && AtOrAfter(i', j', i, j) && f(i', j');
        if (i', j') != (i, j) {
          assert AtOrAfter(i', j', ni, nj);
        }
      }
    }
  }

  /** A scan of the whole board finds a square exactly when one satisfies f. */
  lemma ScanFinds(f: (int, int) -> bool)
    ensures ScanFrom(f, 0, 0) <==> exists i, j :: OnBoard(i, j) && f(i, j)
  {
    ScanFromMeans(f, 0, 0);
    if exists i, j :: OnBoard(i, j) && f(i, j) {
      var i, j :| OnBoard(i, j) && f(i, j);
      assert AtOrAfter(i, j, 0, 0);
    }
  }

  /** Scans of two predicates that agree on the board give the same answer. */
  lemma {:induction false} ScanAgrees(f: (int, int) -> bool, g: (int, int) -> bool, i: int, j: int)
    requires 0 <= i <= 8 && 0 <= j < 8
    requires forall i', j' :: OnBoard(i', j') ==> f(i', j') == g(i', j')
    ensures ScanFrom(f, i, j) == ScanFrom(g, i, j)
    decreases 8 - i, 8 - j
  {
    if i < 8 && j < 7 {
      ScanAgrees(f, g, i, j + 1);
    } else if i < 8 {
      ScanAgrees(f, g, i + 1, 0);
    }
  }

  // ---------------------------------------------------------------------
  // Attack and check
  // ---------------------------------------------------------------------

  /** The piece on (i, j) belongs to the opponent of `color` and reaches (r, c). */
  ghost predicate AttacksFrom(p: Position, i: int, j: int, r: int, c: int, color: Color)
    requires OnBoard(i, j) && OnBoard(r, c)
  {
    OwnedBy(At(p.board, i, j), Opponent(color)) && Reaches(p, At(p.board, i, j).value, i, j, r, c)
  }

  /** The squares from which a piece of the opponent of `color` attacks (r, c). */
  ghost function Attackers(p: Position, r: int, c: int, color: Color): (int, int) -> bool
    requires OnBoard(r, c)
  {
    (i, j) => OnBoard(i, j) && AttacksFrom(p, i, j, r, c, color)
  }

  /** `squareAttacked`: the board scanned, row by row, for an attacker of (r, c). */
  ghost predicate SquareAttacked(p: Position, r: int, c: int, color: Color)
    requires OnBoard(r, c)
  {
    ScanFrom(Attackers(p, r, c, color), 0, 0)
  }

  /** A square is attacked exactly when some opposing piece reaches it. */
  lemma SquareAttackedMeans(p: Position, r: int, c: int, color: Color)
    requires OnBoard(r, c)
    ensures SquareAttacked(p, r, c, color) <==> exists i, j :: OnBoard(i, j) && AttacksFrom(p, i, j, r, c, color)
  {
    ScanFinds(Attackers(p, r, c, color));
  }

  /** Castling is never an attack: which squares are attacked does not
      depend on the castling rights. */
  lemma AttackIgnoresCastling(p: Position, rights: CastlingRights, r: int, c: int, color: Color)
    requires OnBoard(r, c)
    ensures SquareAttacked(p.(rights := rights), r, c, color) == SquareAttacked(p, r, c, color)
  {
    ScanAgrees(Attackers(p.(rights := rights), r, c, color), Attackers(p, r, c, color), 0, 0);
  }

  /** An opposing king attacks exactly the squares at most one row and one
      column away from it, its own square included. */
  lemma KingAttacksAdjacent(p: Position, r: int, c: int, color: Color, i: int, j: int)
    requires OnBoard(r, c) && OnBoard(i, j)
    requires At(p.board, i, j) == Some(Piece(Opponent(color), King))
    ensures AttacksFrom(p, i, j, r, c, color) <==> Abs(r - i) <= 1 && Abs(c - j) <= 1
  {
  }

  ghost predicate IsKingInCheck(p: Position, color: Color)
    requires HasKing(p.board, color)
  {
    var k := FindKing(p.board, color).value;
    SquareAttacked(p, k.row, k.col, color)
  }

  // ---------------------------------------------------------------------
  // Castling
  // ---------------------------------------------------------------------

  /** c lies strictly between a and b. */
  predicate StrictlyBetween(c: int, a: int, b: int) {
    (a < c < b) || (b < c < a)
  }

  /** c lies between a and b, both included. */
  predicate Within(c: int, a: int, b: int) {
    (a <= c <= b) || (b <= c <= a)
  }

  /** Columns c, c + step, ... up to but not including stop all lie on the
      board, and stepping from c reaches stop. */
  predicate Heading(c: int, stop: int, step: int) {
    (step == 1 && 0 <= c <= stop <= 8) || (step == -1 && -1 <= stop <= c <= 7)
  }

  /** Column x is one of c, c + step, ... short of stop. */
  predicate Covers(x: int, c: int, stop: int, step: int) {
    (step == 1 && c <= x < stop) || (step == -1 && stop < x <= c)
  }

  /** The loops of `validateCastling`: every column c, c + step, ... short
      of stop satisfies f. */
  ghost predicate AllUpTo(f: int -> bool, c: int, stop: int, step: int)
    requires Heading(c, stop, step)
    decreases Abs(stop - c)
  {
    c == stop || (f(c) && AllUpTo(f, c + step, stop, step))
  }

  lemma {:induction false} AllUpToMeans(f: int -> bool, c: int, stop: int, step: int)
    requires Heading(c, stop, step)
    ensures AllUpTo(f, c, stop, step) <==> forall x :: Covers(x, c, stop, step) ==> f(x)
    decreases Abs(stop - c)
  {
    if c != stop {
      AllUpToMeans(f, c + step, stop, step);
    }
  }

  /** The columns of row r whose cell is empty (the first loop). */
  ghost function EmptyIn(b: Board, r: int): int -> bool
    requires 0 <= r < 8
  {
    x => 0 <= x < 8 && At(b, r, x) == None
  }

  /** The columns of row r that no piece of the opponent of `color` attacks
      (the second loop). */
  ghost function SafeIn(p: Position, r: int, color: Color): int -> bool
    requires 0 <= r < 8
  {
    x => 0 <= x < 8 && !SquareAttacked(p, r, x, color)
  }

  /** The king on (fr, fc) may castle to (fr, tc): it is not in check, the
      flag of that side (king side when tc > fc) is still set, every square
      between the king and the rook's corner (column 7 or 0) is empty, and no
      square from the king's column through tc is attacked.  The rook itself
      is not looked for. */
  ghost predicate ValidateCastling(p: Position, fr: int, fc: int, tr: int, tc: int, color: Color)
    requires OnBoard(fr, fc) && OnBoard(tr, tc) && tr == fr && Abs(tc - fc) == 2
    requires HasKing(p.board, color)
  {
    var kingSide := tc > fc;
    var rookCol := if kingSide then 7 else 0;
    var step := if kingSide then 1 else -1;
    && !IsKingInCheck(p, color)
    && (if kingSide then p.rights.Of(color).kingSide else p.rights.Of(color).queenSide)
    && AllUpTo(EmptyIn(p.board, fr), fc + step, rookCol, step)
    && AllUpTo(SafeIn(p, fr, color), fc, tc + step, step)
  }

  /** The first castling loop checks exactly the squares strictly between
      the king and the rook's corner. */
  lemma RookPathMeans(b: Board, fr: int, fc: int, tc: int)
    requires OnBoard(fr, fc) && OnBoard(fr, tc) && Abs(tc - fc) == 2
    ensures var step := if tc > fc then 1 else -1;
            var rookCol := if tc > fc then 7 else 0;
            AllUpTo(EmptyIn(b, fr), fc + step, rookCol, step) <==>
              forall c :: StrictlyBetween(c, fc, rookCol) ==> At(b, fr, c) == None
  {
    var step := if tc > fc then 1 else -1;
    var rookCol := if tc > fc then 7 else 0;
    AllUpToMeans(EmptyIn(b, fr), fc + step, rookCol, step);
    assert forall c :: StrictlyBetween(c, fc, rookCol) <==> Covers(c, fc + step, rookCol, step);
  }

  /** The second castling loop checks exactly the squares from the king's
      column through the target column. */
  lemma TransitMeans(p: Position, fr: int, fc: int, tc: int, color: Color)
    requires OnBoard(fr, fc) && OnBoard(fr, tc) && Abs(tc - fc) == 2
    ensures var step := if tc > fc then 1 else -1;
            AllUpTo(SafeIn(p, fr, color), fc, tc + step, step) <==>
              forall c :: Within(c, fc, tc) ==> !SquareAttacked(p, fr, c, color)
  {
    var step := if tc > fc then 1 else -1;
    AllUpToMeans(SafeIn(p, fr, color), fc, tc + step, step);
    assert forall c :: Within(c, fc, tc) <==> Covers(c, fc, tc + step, step);
  }

  /** The castling conditions in declarative form: the squares strictly
      between the king and the rook's corner are empty and the squares from
      the king's column through the target column are not attacked. */
  lemma ValidateCastlingMeans(p: Position, fr: int, fc: int, tc: int, color: Color)
    requires OnBoard(fr, fc) && OnBoard(fr, tc) && Abs(tc - fc) == 2 && HasKing(p.board, color)
    ensures ValidateCastling(p, fr, fc, fr, tc, color) <==>
              && !IsKingInCheck(p, color)
              && (if tc > fc then p.rights.Of(color).kingSide else p.rights.Of(color).queenSide)
              && (forall c :: StrictlyBetween(c, fc, if tc > fc then 7 else 0) ==> At(p.board, fr, c) == None)
              && (forall c :: Within(c, fc, tc) ==> !SquareAttacked(p, fr, c, color))
  {
    RookPathMeans(p.board, fr, fc, tc);
    TransitMeans(p, fr, fc, tc, color);
  }

  /** The king shifts two columns along its row. */
  predicate CastlingShape(piece: Piece, fr: int, fc: int, tr: int, tc: int) {
    piece.kind == King && tr == fr && Abs(tc - fc) == 2
  }

  /** `basicMove`: the geometry of the piece on (fr, fc), including castling. */
  ghost predicate BasicMove(p: Position, piece: Piece, fr: int, fc: int, tr: int, tc: int)
    requires OnBoard(fr, fc) && OnBoard(tr, tc) && At(p.board, fr, fc) == Some(piece)
  {
    || Reaches(p, piece, fr, fc, tr, tc)
    || (CastlingShape(piece, fr, fc, tr, tc)
        && assert p.board[Idx(fr, fc)] == Some(Piece(piece.color, King));
           ValidateCastling(p, fr, fc, tr, tc, piece.color))
  }

  /** Each failed castling condition rules the two-column king shift out. */
  lemma CastlingFailures(p: Position, fr: int, fc: int, tc: int, color: Color)
    requires OnBoard(fr, fc) && OnBoard(fr, tc) && Abs(tc - fc) == 2
    requires At(p.board, fr, fc) == Some(Piece(color, King))
    requires || IsKingInCheck(p, color)
             || (tc > fc && !p.rights.Of(color).kingSide)
             || (tc < fc && !p.rights.Of(color).queenSide)
             || (exists c :: StrictlyBetween(c, fc, if tc > fc then 7 else 0) && At(p.board, fr, c) != None)
             || (exists c :: Within(c, fc, tc) && SquareAttacked(p, fr, c, color))
    ensures !BasicMove(p, Piece(color, King), fr, fc, fr, tc)
  {
    assert HasKing(p.board, color) by {
      assert p.board[Idx(fr, fc)] == Some(Piece(color, King));
    }
    ValidateCastlingMeans(p, fr, fc, tc, color);
  }

  // ---------------------------------------------------------------------
  // Self-check and legality
  // ---------------------------------------------------------------------

  /** The board with the piece of (fr, fc) put on (tr, tc) and (fr, fc) emptied:
      the only change the self-check test makes. */
  function Toggle(b: Board, fr: int, fc: int, tr: int, tc: int): Board
    requires OnBoard(fr, fc) && OnBoard(tr, tc)
  {
    b[Idx(tr, tc) := b[Idx(fr, fc)]][Idx(fr, fc) := None]
  }

  /** Toggling a piece onto a square not held by `color` keeps a king of `color`. */
  lemma ToggleKeepsKing(b: Board, color: Color, fr: int, fc: int, tr: int, tc: int)
    requires OnBoard(fr, fc) && OnBoard(tr, tc)
    requires HasKing(b, color) && !OwnedBy(At(b, tr, tc), color)
    ensures HasKing(Toggle(b, fr, fc, tr, tc), color)
  {
    var k :| 0 <= k < 64 && b[k] == Some(Piece(color, King));
    var t := Toggle(b, fr, fc, tr, tc);
    if k == Idx(fr, fc) {
      assert t[Idx(tr, tc)] == Some(Piece(color, King));
    } else {
      assert t[k] == Some(Piece(color, King));
    }
  }

  /** `causesSelfCheck`: the side to move is in check once the primary piece is toggled. */
  ghost predicate CausesSelfCheck(p: Position, fr: int, fc: int, tr: int, tc: int)
    requires OnBoard(fr, fc) && OnBoard(tr, tc) && HasKing(Toggle(p.board, fr, fc, tr, tc), p.turn)
  {
    IsKingInCheck(p.(board := Toggle(p.board, fr, fc, tr, tc)), p.turn)
  }

  /** `isValidMove`: a piece stands on (fr, fc), (tr, tc) holds no piece of
      the side to move, the geometry allows the move, and the toggled board
      leaves the side to move out of check. */
  ghost predicate IsValidMove(p: Position, fr: int, fc: int, tr: int, tc: int)
    requires OnBoard(fr, fc) && OnBoard(tr, tc) && HasKing(p.board, p.turn)
  {
    && At(p.board, fr, fc).Some?
    && !OwnedBy(At(p.board, tr, tc), p.turn)
    && BasicMove(p, At(p.board, fr, fc).value, fr, fc, tr, tc)
    && (ToggleKeepsKing(p.board, p.turn, fr, fc, tr, tc);
        !CausesSelfCheck(p, fr, fc, tr, tc))
  }

  /** A move of the side to move that IsValidMove accepts never stays on its
      square, never captures a piece of its own colour, and leaves its king
      unattacked on the toggled board. */
  lemma ValidMoveFacts(p: Position, fr: int, fc: int, tr: int, tc: int)
    requires OnBoard(fr, fc) && OnBoard(tr, tc) && HasKing(p.board, p.turn)
    requires OwnedBy(At(p.board, fr, fc), p.turn)
    requires IsValidMove(p, fr, fc, tr, tc)
    ensures (fr, fc) != (tr, tc)
    ensures !OwnedBy(At(p.board, tr, tc), p.turn)
    ensures HasKing(Toggle(p.board, fr, fc, tr, tc), p.turn)
    ensures var t := p.(board := Toggle(p.board, fr, fc, tr, tc));
            var k := FindKing(t.board, p.turn).value;
            !SquareAttacked(t, k.row, k.col, p.turn)
  {
    ToggleKeepsKing(p.board, p.turn, fr, fc, tr, tc);
  }

  /** The piece on (fr, fc) has some valid move. */
  ghost predicate PieceCanMove(p: Position, fr: int, fc: int)
    requires OnBoard(fr, fc) && HasKing(p.board, p.turn)
  {
    exists tr, tc :: OnBoard(tr, tc) && IsValidMove(p, fr, fc, tr, tc)
  }

  /** Some piece of `color`, anywhere on the board, has a valid move. */
  ghost predicate HasAnyLegalMove(p: Position, color: Color)
    requires HasKing(p.board, p.turn)
  {
    exists fr, fc :: OnBoard(fr, fc) && OwnedBy(At(p.board, fr, fc), color) && PieceCanMove(p, fr, fc)
  }

  /** The destinations the inner loops of `hasAnyLegalMove` accept for the piece on (fr, fc). */
  ghost function Destinations(p: Position, fr: int, fc: int): (int, int) -> bool
    requires OnBoard(fr, fc) && HasKing(p.board, p.turn)
  {
    (tr, tc) => OnBoard(tr, tc) && IsValidMove(p, fr, fc, tr, tc)
  }

  /** The squares the outer loops of `hasAnyLegalMove` accept: a piece of
      `color` that can move. */
  ghost function Movers(p: Position, color: Color): (int, int) -> bool
    requires HasKing(p.board, p.turn)
  {
    (r, c) => OnBoard(r, c) && OwnedBy(At(p.board, r, c), color) && PieceCanMove(p, r, c)
  }

  /** Scanning the destinations decides whether the piece can move. */
  lemma DestinationScanDecides(p: Position, fr: int, fc: int)
    requires OnBoard(fr, fc) && HasKing(p.board, p.turn)
    ensures ScanFrom(Destinations(p, fr, fc), 0, 0) == PieceCanMove(p, fr, fc)
  {
    ScanFinds(Destinations(p, fr, fc));
  }

  /** Scanning the pieces decides whether the colour has a legal move. */
  lemma MoverScanDecides(p: Position, color: Color)
    requires HasKing(p.board, p.turn)
    ensures ScanFrom(Movers(p, color), 0, 0) == HasAnyLegalMove(p, color)
  {
    ScanFinds(Movers(p, color));
  }

  // ---------------------------------------------------------------------
  // End of game
  // ---------------------------------------------------------------------

  datatype Status = Ongoing | Checkmate | Stalemate

  /** The classification of `checkGameEnd` for the side to move. */
  ghost function GameStatus(p: Position): (s: Status)
    requires HasKing(p.board, p.turn)
    ensures s == Checkmate <==> IsKingInCheck(p, p.turn) && !HasAnyLegalMove(p, p.turn)
    ensures s == Stalemate <==> !IsKingInCheck(p, p.turn) && !HasAnyLegalMove(p, p.turn)
    ensures s == Ongoing <==> HasAnyLegalMove(p, p.turn)
  {
    var check := IsKingInCheck(p, p.turn);
    var any := HasAnyLegalMove(p, p.turn);
    if check && !any then Checkmate
    else if !check && !any then Stalemate
    else Ongoing
  }
}
