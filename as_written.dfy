/** Attack detection exactly as the browser game writes it.  There,
    `squareAttacked` asks `basicMove` whether an opposing piece can move to
    the square, and `basicMove` treats a two-column king shift as castling
    and calls `validateCastling`, which first asks `isKingInCheck`, which
    calls `squareAttacked` again.  Each function here takes a fuel budget and
    answers None when the budget runs out or when the source would throw
    (no king of the colour on the board); Some(v) is an answer the source
    returns.

    The rest of the model (module Rules) uses the corrected rule: an attack
    is a piece's movement rule without the castling branch, which always
    answers and does not depend on the castling rights
    (Rules.SquareAttacked, Rules.AttackIgnoresCastling).
 */
module AsWritten {
  import opened Chess
  import Rules

  /** `basicMove` as written: the castling branch spends one unit of fuel. */
  ghost function BasicMove(fuel: nat, p: Position, piece: Piece, fr: int, fc: int, tr: int, tc: int): Option<bool>
    requires OnBoard(fr, fc) && OnBoard(tr, tc)
    decreases fuel, 0, 0, 0
  {
    if Rules.CastlingShape(piece, fr, fc, tr, tc) then
      if fuel == 0 then None else ValidateCastling(fuel - 1, p, fr, fc, tc, piece.color)
    else Some(Rules.Reaches(p, piece, fr, fc, tr, tc))
  }

  /** `validateCastling` as written: the check test, the flag, the empty row
      towards the rook's corner, then the squares the king crosses. */
  ghost function ValidateCastling(fuel: nat, p: Position, fr: int, fc: int, tc: int, color: Color): Option<bool>
    requires OnBoard(fr, fc) && OnBoard(fr, tc) && Abs(tc - fc) == 2
    decreases fuel, 4, 0, 0
  {
    var step := if tc > fc then 1 else -1;
    var rookCol := if tc > fc then 7 else 0;
    var check := IsKingInCheck(fuel, p, color);
    if check.None? then None
    else if check.value then Some(false)
    else if !(if tc > fc then p.rights.Of(color).kingSide else p.rights.Of(color).queenSide) then Some(false)
    else if !Rules.AllUpTo(Rules.EmptyIn(p.board, fr), fc + step, rookCol, step) then Some(false)
    else Transit(fuel, p, fr, fc, tc + step, step, color)
  }

  /** The second loop of `validateCastling`: no square of row fr from c up
      to stop is attacked. */
  ghost function Transit(fuel: nat, p: Position, fr: int, c: int, stop: int, step: int, color: Color): Option<bool>
    requires 0 <= fr < 8 && Rules.Heading(c, stop, step)
    decreases fuel, 3, Abs(stop - c), 0
  {
    if c == stop then Some(true)
    else
      var attacked := SquareAttacked(fuel, p, fr, c, color);
      if attacked.None? then None
      else if attacked.value then Some(false)
      else Transit(fuel, p, fr, c + step, stop, step, color)
  }

  /** `isKingInCheck` as written; without a king the source throws. */
  ghost function IsKingInCheck(fuel: nat, p: Position, color: Color): Option<bool>
    decreases fuel, 3, 0, 0
  {
    var k := Rules.FindKing(p.board, color);
    if k.None? then None else SquareAttacked(fuel, p, k.value.row, k.value.col, color)
  }

  /** `squareAttacked` as written. */
  ghost function SquareAttacked(fuel: nat, p: Position, r: int, c: int, color: Color): Option<bool>
    requires OnBoard(r, c)
    decreases fuel, 2, 0, 0
  {
    Scan(fuel, p, r, c, color, 0, 0)
  }

  /** The row-major scan of `squareAttacked` from (i, j): the first opposing
      piece whose `basicMove` fails to answer or says yes decides. */
  ghost function Scan(fuel: nat, p: Position, r: int, c: int, color: Color, i: int, j: int): Option<bool>
    requires OnBoard(r, c) && 0 <= i <= 8 && 0 <= j < 8
    decreases fuel, 1, 8 - i, 8 - j
  {
    if i == 8 then Some(false)
    else
      var cell := At(p.board, i, j);
      var hit := if OwnedBy(cell, Opponent(color)) then BasicMove(fuel, p, cell.value, i, j, r, c) else Some(false);
      if hit != Some(false) then hit
      else if j < 7 then Scan(fuel, p, r, c, color, i, j + 1)
      else Scan(fuel, p, r, c, color, i + 1, 0)
  }

  /** The scan stops without an answer at the first opposing piece, when
      that piece's `basicMove` gives none. */
  lemma {:induction false} ScanStopsAt(fuel: nat, p: Position, r: int, c: int, color: Color, i: int, j: int, a: int, b: int)
    requires OnBoard(r, c) && 0 <= i <= 8 && 0 <= j < 8 && OnBoard(a, b) && Rules.AtOrAfter(a, b, i, j)
    requires OwnedBy(At(p.board, a, b), Opponent(color))
    requires BasicMove(fuel, p, At(p.board, a, b).value, a, b, r, c).None?
    requires forall i', j' :: OnBoard(i', j') && Rules.AtOrAfter(i', j', i, j) && !Rules.AtOrAfter(i', j', a, b) ==>
               !OwnedBy(At(p.board, i', j'), Opponent(color))
    ensures Scan(fuel, p, r, c, color, i, j).None?
    decreases 8 - i, 8 - j
  {
    if (i, j) != (a, b) {
      assert !Rules.AtOrAfter(i, j, a, b);
      if j < 7 {
        ScanStopsAt(fuel, p, r, c, color, i, j + 1, a, b);
      } else {
        ScanStopsAt(fuel, p, r, c, color, i + 1, 0, a, b);
      }
    }
  }

  /** No king of the opponent of `color` stands on row r two columns from c:
      the only place from which the castling branch can be reached. */
  ghost predicate NoKingTwoAway(p: Position, r: int, c: int, color: Color)
    requires OnBoard(r, c)
  {
    forall j :: 0 <= j < 8 && Abs(c - j) == 2 ==> At(p.board, r, j) != Some(Piece(Opponent(color), King))
  }

  /** Away from that case the as-written scan answers, and its answer is the
      corrected one, whatever the fuel. */
  lemma {:induction false} ScanAgrees(fuel: nat, p: Position, r: int, c: int, color: Color, i: int, j: int)
    requires OnBoard(r, c) && 0 <= i <= 8 && 0 <= j < 8 && NoKingTwoAway(p, r, c, color)
    ensures Scan(fuel, p, r, c, color, i, j) == Some(Rules.ScanFrom(Rules.Attackers(p, r, c, color), i, j))
    decreases 8 - i, 8 - j
  {
    if i < 8 {
      var cell := At(p.board, i, j);
      if OwnedBy(cell, Opponent(color)) {
        assert !Rules.CastlingShape(cell.value, i, j, r, c);
      }
      if j < 7 {
        ScanAgrees(fuel, p, r, c, color, i, j + 1);
      } else {
        ScanAgrees(fuel, p, r, c, color, i + 1, 0);
      }
    }
  }

  /** Unless an opposing king stands two columns away on the same row, the
      as-written `squareAttacked` answers, and agrees with the corrected test. */
  lemma AttackAgreesAwayFromKings(fuel: nat, p: Position, r: int, c: int, color: Color)
    requires OnBoard(r, c) && NoKingTwoAway(p, r, c, color)
    ensures SquareAttacked(fuel, p, r, c, color) == Some(Rules.SquareAttacked(p, r, c, color))
  {
    ScanAgrees(fuel, p, r, c, color, 0, 0);
  }

  /** Likewise for `isKingInCheck`: with a king of the colour and no opposing
      king two columns from it on its row, the as-written check test answers
      as the corrected one. */
  lemma CheckAgreesAwayFromKings(fuel: nat, p: Position, color: Color)
    requires Rules.HasKing(p.board, color)
    requires var k := Rules.FindKing(p.board, color).value; NoKingTwoAway(p, k.row, k.col, color)
    ensures IsKingInCheck(fuel, p, color) == Some(Rules.IsKingInCheck(p, color))
  {
    var k := Rules.FindKing(p.board, color).value;
    AttackAgreesAwayFromKings(fuel, p, k.row, k.col, color);
  }

  /** The two kings alone on the board, on one row, two columns apart. */
  ghost predicate BareKingsTwoApart(p: Position, r: int, wc: int, bc: int) {
    && OnBoard(r, wc) && OnBoard(r, bc) && Abs(wc - bc) == 2
    && At(p.board, r, wc) == Some(Piece(White, King))
    && At(p.board, r, bc) == Some(Piece(Black, King))
    && forall i, j :: OnBoard(i, j) && (i, j) != (r, wc) && (i, j) != (r, bc) ==> At(p.board, i, j) == None
  }

  /** Such a position has each king where it stands and no other piece. */
  lemma OnlyTheKings(p: Position, r: int, wc: int, bc: int)
    requires BareKingsTwoApart(p, r, wc, bc)
    ensures Rules.FindKing(p.board, White) == Some(Square(r, wc))
    ensures Rules.FindKing(p.board, Black) == Some(Square(r, bc))
    ensures forall i, j :: OnBoard(i, j) && OwnedBy(At(p.board, i, j), White) ==> i == r && j == wc
    ensures forall i, j :: OnBoard(i, j) && OwnedBy(At(p.board, i, j), Black) ==> i == r && j == bc
  {
    assert p.board[Idx(r, wc)] == Some(Piece(White, King));
    assert p.board[Idx(r, bc)] == Some(Piece(Black, King));
  }

  /** A king's two-column shift towards a king that stands alone gives no
      answer when that king's own check test gives none. */
  lemma KingShiftNeverAnswers(fuel: nat, p: Position, r: int, fc: int, tc: int, color: Color)
    requires OnBoard(r, fc) && OnBoard(r, tc) && Abs(tc - fc) == 2
    requires fuel > 0 ==> IsKingInCheck(fuel - 1, p, color).None?
    ensures BasicMove(fuel, p, Piece(color, King), r, fc, r, tc).None?
  {
  }

  /** With the two kings alone on a row two columns apart, `isKingInCheck`
      never answers, for either colour and whatever the castling rights:
      each king's attack test asks whether the other king may castle onto
      it, which asks whether that king is in check, and so on without end. */
  lemma {:induction false} CheckTestNeverAnswers(fuel: nat, p: Position, r: int, wc: int, bc: int)
    requires BareKingsTwoApart(p, r, wc, bc)
    ensures IsKingInCheck(fuel, p, White).None?
    ensures IsKingInCheck(fuel, p, Black).None?
  {
    OnlyTheKings(p, r, wc, bc);
    if fuel > 0 {
      CheckTestNeverAnswers(fuel - 1, p, r, wc, bc);
    }
    KingShiftNeverAnswers(fuel, p, r, bc, wc, Black);
    ScanStopsAt(fuel, p, r, wc, White, 0, 0, r, bc);
    KingShiftNeverAnswers(fuel, p, r, wc, bc, White);
    ScanStopsAt(fuel, p, r, bc, Black, 0, 0, r, wc);
  }

  /** For instance the White king on e4 and the Black king on g4 (row 4,
      columns 4 and 6) with nothing else on the board. */
  lemma KingsOnE4AndG4(p: Position)
    requires p.board == EmptyBoard()[Idx(4, 4) := Some(Piece(White, King))][Idx(4, 6) := Some(Piece(Black, King))]
    ensures BareKingsTwoApart(p, 4, 4, 6)
    ensures forall fuel: nat :: IsKingInCheck(fuel, p, White).None? && IsKingInCheck(fuel, p, Black).None?
  {
    forall i, j | OnBoard(i, j) && (i, j) != (4, 4) && (i, j) != (4, 6)
      ensures At(p.board, i, j) == None
    {
      assert Idx(i, j) != Idx(4, 4) && Idx(i, j) != Idx(4, 6);
    }
    forall fuel: nat
      ensures IsKingInCheck(fuel, p, White).None? && IsKingInCheck(fuel, p, Black).None?
    {
      CheckTestNeverAnswers(fuel, p, 4, 4, 6);
    }
  }

  /** The corrected attack test answers for the same position: neither king
      is in check, since a king attacks only the squares next to it. */
  lemma BareKingsNotInCheck(p: Position, r: int, wc: int, bc: int)
    requires BareKingsTwoApart(p, r, wc, bc)
    ensures Rules.HasKing(p.board, White) && !Rules.IsKingInCheck(p, White)
    ensures Rules.HasKing(p.board, Black) && !Rules.IsKingInCheck(p, Black)
  {
    OnlyTheKings(p, r, wc, bc);
    Rules.SquareAttackedMeans(p, r, wc, White);
    Rules.SquareAttackedMeans(p, r, bc, Black);
    Rules.KingAttacksAdjacent(p, r, wc, White, r, bc);
    Rules.KingAttacksAdjacent(p, r, bc, Black, r, wc);
  }
}
