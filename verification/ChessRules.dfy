/**
 What every run of the game keeps: the castling and en passant invariants,
 exact undo, the piece counts, and the safety of both kings.
 */
module ChessRules {
  import opened ChessBoard
  import opened ChessMoves

  /** A held castling right means its rook is still at home. */
  predicate RooksHome(b: Position)
    requires Shape(b)
  {
    && (b.castle.wk ==> b.piece[7] == W_ROOK)
    && (b.castle.wq ==> b.piece[0] == W_ROOK)
    && (b.castle.bk ==> b.piece[63] == B_ROOK)
    && (b.castle.bq ==> b.piece[56] == B_ROOK)
  }

  /** A set en passant file means the pawn that just advanced two squares is in
      place and the square it jumped is empty. */
  predicate EpPawnInPlace(b: Position)
    requires Shape(b)
  {
    b.ep >= 0 ==>
      if b.side == WHITE then b.piece[32 + b.ep] == B_PAWN && b.piece[40 + b.ep] == EMPTY
      else b.piece[24 + b.ep] == W_PAWN && b.piece[16 + b.ep] == EMPTY
  }

  predicate Inv(b: Position)
  {
    && Shape(b)
    && b.halfMoves < 0x10000
    && (forall i :: 0 <= i < 64 ==> PieceCode(b.piece[i]))
    && RooksHome(b)
    && EpPawnInPlace(b)
  }

  /** unmake_move after make_move restores the whole board. */
  lemma UnmakeRestores(b: Position, m: Move)
    requires Inv(b) && Fits(b, m)
    ensures Playable(b, m) && Unmake(Make(b, m), m, UndoFor(b, m)) == b
  {
    var p := Placed(b, m);
    var q := Unplaced(p, b.side, m, UndoFor(b, m).captured);
    forall i | 0 <= i < 64 ensures q[i] == b.piece[i] {
      var x := b.piece[m.from];
      assert PieceCode(x);
    }
    assert q == b.piece;
  }

  lemma MakeKeepsInv(b: Position, m: Move)
    requires Inv(b) && Fits(b, m)
    ensures Playable(b, m) && Inv(Make(b, m))
  {
    var b' := Make(b, m);
    forall i | 0 <= i < 64 ensures PieceCode(b'.piece[i]) {
      assert PieceCode(b.piece[m.from]) && PieceCode(b.piece[i]);
    }
    assert RooksHome(b');
    assert PieceCode(b.piece[m.from]);
    assert EpPawnInPlace(b');
  }

  // ---- piece counts ----------------------------------------------------------

  predicate NonEmpty(p: nat) { p != EMPTY }
  predicate IsWhite(p: nat) { p != EMPTY && Color(p) == WHITE }
  predicate IsBlack(p: nat) { p != EMPTY && Color(p) == BLACK }

  function B2N(b: bool): nat { if b then 1 else 0 }

  function Count(p: seq<nat>, q: nat -> bool): nat
  {
    if p == [] then 0 else B2N(q(p[0])) + Count(p[1..], q)
  }

  lemma {:induction false} CountUpdate(p: seq<nat>, i: nat, v: nat, q: nat -> bool)
    requires i < |p|
    ensures Count(p[i := v], q) == Count(p, q) - B2N(q(p[i])) + B2N(q(v))
  {
    if i == 0 {
      assert p[0 := v][1..] == p[1..];
    } else {
      assert p[i := v][1..] == p[1..][i - 1 := v];
      CountUpdate(p[1..], i - 1, v, q);
    }
  }

  /** The piece that leaves the board when m is made. */
  function Victim(b: Position, m: Move): nat
    requires Playable(b, m)
  {
    UndoFor(b, m).captured
  }

  lemma VictimIffCapture(b: Position, m: Move)
    requires Inv(b) && Fits(b, m)
    ensures Playable(b, m) && (IsCapture(m) <==> Victim(b, m) != EMPTY)
    ensures IsCapture(m) ==> Enemy(b, Victim(b, m))
  {}

  lemma CountPlainMove(p: seq<nat>, from: nat, to: nat, v: nat, q: nat -> bool)
    requires from < |p| && to < |p| && from != to && !q(EMPTY)
    ensures Count(p[to := v][from := EMPTY], q) == Count(p, q) - B2N(q(p[to])) - B2N(q(p[from])) + B2N(q(v))
  {
    CountUpdate(p, to, v, q);
    CountUpdate(p[to := v], from, EMPTY, q);
  }

  lemma CountEp(b: Position, m: Move, q: nat -> bool)
    requires Inv(b) && Fits(b, m) && !q(EMPTY) && m.flag == EP
    ensures Playable(b, m)
    ensures Count(Placed(b, m), q) == Count(b.piece, q) - B2N(q(Victim(b, m)))
  {
    var v := EpVictim(b.side, m.to);
    CountUpdate(b.piece, v, EMPTY, q);
    CountPlainMove(b.piece[v := EMPTY], m.from, m.to, b.piece[m.from], q);
  }

  lemma CountCastle(b: Position, m: Move, q: nat -> bool)
    requires Inv(b) && Fits(b, m) && !q(EMPTY) && (m.flag == KS_CASTLE || m.flag == QS_CASTLE)
    ensures Playable(b, m)
    ensures Count(Placed(b, m), q) == Count(b.piece, q)
  {
    CountPlainMove(b.piece, m.from, m.to, b.piece[m.from], q);
    var p := b.piece[m.to := b.piece[m.from]][m.from := EMPTY];
    var rookTo := if m.flag == KS_CASTLE then m.from + 1 else m.from - 1;
    var rookFrom := if m.flag == KS_CASTLE then m.from + 3 else m.from - 4;
    CountPlainMove(p, rookFrom, rookTo, b.piece[rookFrom], q);
    assert Placed(b, m) == p[rookTo := b.piece[rookFrom]][rookFrom := EMPTY];
  }

  /** Conservation of material: a move removes its victim and nothing else, and a
      promotion replaces the pawn by the promoted piece. */
  lemma CountMake(b: Position, m: Move, q: nat -> bool)
    requires Inv(b) && Fits(b, m) && !q(EMPTY)
    ensures Playable(b, m)
    ensures Count(Make(b, m).piece, q) ==
            Count(b.piece, q) - B2N(q(Victim(b, m))) +
            (if IsPromo(m) then B2N(q(PromoPiece(m, b.side))) - B2N(q(b.piece[m.from])) else 0)
  {
    if m.flag == EP {
      CountEp(b, m, q);
    } else if m.flag == KS_CASTLE || m.flag == QS_CASTLE {
      CountCastle(b, m, q);
    } else {
      CountPlainMove(b.piece, m.from, m.to, Placed(b, m)[m.to], q);
    }
  }

  /** A capture takes exactly one piece off the board; no other move changes the number. */
  lemma CaptureShrinks(b: Position, m: Move)
    requires Inv(b) && Fits(b, m)
    ensures Playable(b, m)
    ensures Count(Make(b, m).piece, NonEmpty) == Count(b.piece, NonEmpty) - B2N(IsCapture(m))
  {
    CountMake(b, m, NonEmpty);
    VictimIffCapture(b, m);
  }

  function Own(side: nat): nat -> bool { if side == WHITE then IsWhite else IsBlack }

  /** No side ever gains a piece, and only a capture by the other side costs one. */
  lemma SideCounts(b: Position, m: Move)
    requires Inv(b) && Fits(b, m)
    ensures Playable(b, m)
    ensures Count(Make(b, m).piece, Own(b.side)) == Count(b.piece, Own(b.side))
    ensures Count(Make(b, m).piece, Own(Opp(b.side))) == Count(b.piece, Own(Opp(b.side))) - B2N(IsCapture(m))
  {
    hide Count, Make, Inv, Victim;
    CountMake(b, m, Own(b.side));
    CountMake(b, m, Own(Opp(b.side)));
    VictimIffCapture(b, m);
    MoverCode(b, m);
  }

  lemma MoverCode(b: Position, m: Move)
    requires Inv(b) && Fits(b, m)
    ensures PieceCode(b.piece[m.from]) && (b.side == WHITE || b.side == BLACK)
  {}

  // ---- a generated capture is an attack ----------------------------------------

  function Neg(d: Dir): Dir { (-d.0, -d.1) }

  lemma SqCoords(f: int, r: int)
    requires OnBoard(f, r)
    ensures 0 <= Sq(f, r) < 64 && FileOf(Sq(f, r)) == f && RankOf(Sq(f, r)) == r
  {}

  lemma RaySplits(p: seq<nat>, side: nat, s: nat, f: int, r: int, d: Dir, m: Move)
    requires |p| == 64 && UnitDir(d)
    ensures m in Ray(p, side, s, f, r, d) <==>
            OnBoard(f, r) && (m in Landing(p, side, s, f, r) ||
                              (p[Sq(f, r)] == EMPTY && m in Ray(p, side, s, f + d.0, r + d.1, d)))
  {
    hide Landing;
  }

  lemma RayHitSplits(p: seq<nat>, f: int, r: int, d: Dir)
    requires |p| == 64 && UnitDir(d) && OnBoard(f, r)
    ensures RayHit(p, f, r, d) == if p[Sq(f, r)] != EMPTY then p[Sq(f, r)] else RayHit(p, f + d.0, r + d.1, d)
  {}

  /** A move of a slide lands on its current square or passes over it. */
  lemma RayFirst(p: seq<nat>, side: nat, s: nat, f: int, r: int, d: Dir, m: Move)
    requires |p| == 64 && UnitDir(d) && m in Ray(p, side, s, f, r, d)
    ensures OnBoard(f, r)
    ensures m.to == Sq(f, r) ||
            (m in Ray(p, side, s, f + d.0, r + d.1, d) && RayHit(p, f, r, Neg(d)) ==
             RayHit(p, f - d.0, r - d.1, Neg(d)))
  {
    hide RayHit, Ray, Sq;
    RaySplits(p, side, s, f, r, d, m);
    RayHitSplits(p, f, r, Neg(d));
  }

  /** Walking back along a slide from any square it captures on meets the slider. */
  lemma {:induction false} RayWalksBack(p: seq<nat>, side: nat, s: nat, f: int, r: int, d: Dir, m: Move)
    requires |p| == 64 && s < 64 && UnitDir(d)
    requires RayHit(p, f - d.0, r - d.1, Neg(d)) == p[s]
    requires m in Ray(p, side, s, f, r, d)
    ensures m.to < 64
    ensures RayHit(p, FileOf(m.to) - d.0, RankOf(m.to) - d.1, Neg(d)) == p[s]
    decreases RayLeft(f, r, d)
  {
    hide Ray, RayHit, FileOf, RankOf, Sq;
    RayFirst(p, side, s, f, r, d, m);
    SqCoords(f, r);
    if m.to != Sq(f, r) {
      var f', r' := f + d.0, r + d.1;
      assert f' - d.0 == f && r' - d.1 == r;
      RayWalksBack(p, side, s, f', r', d, m);
    }
  }

  /** The direction a step move went in. */
  lemma {:induction false} StepSource(p: seq<nat>, side: nat, s: nat, dirs: seq<Dir>, m: Move) returns (i: nat)
    requires |p| == 64 && s < 64 && m in StepMoves(p, side, s, dirs)
    ensures i < |dirs| && OnBoard(FileOf(s) + dirs[i].0, RankOf(s) + dirs[i].1)
    ensures m.to == Sq(FileOf(s) + dirs[i].0, RankOf(s) + dirs[i].1)
  {
    i := |dirs| - 1;
    var f, r := FileOf(s) + dirs[i].0, RankOf(s) + dirs[i].1;
    if !(OnBoard(f, r) && m in Landing(p, side, s, f, r)) {
      i := StepSource(p, side, s, dirs[..i], m);
    }
  }

  lemma StepHitBack(p: seq<nat>, side: nat, s: nat, d: Dir, to: nat)
    requires |p| == 64 && s < 64 && Color(p[s]) == side && OnBoard(FileOf(s) + d.0, RankOf(s) + d.1)
    requires to == Sq(FileOf(s) + d.0, RankOf(s) + d.1)
    ensures StepHit(p, FileOf(to), RankOf(to), Neg(d), Kind(p[s]), side)
  {
    hide Kind, Color;
    var f, r := FileOf(s), RankOf(s);
    SqCoords(f + d.0, r + d.1);
    assert s == Sq(f, r) && OnBoard(f, r);
    assert f + d.0 + Neg(d).0 == f && r + d.1 + Neg(d).1 == r;
    hide FileOf, RankOf, Sq;
  }

  lemma StepTakeAttacks(p: seq<nat>, side: nat, s: nat, dirs: seq<Dir>, i: nat, j: nat, to: nat)
    requires |p| == 64 && s < 64 && Color(p[s]) == side && i < |dirs| && j < |dirs| && dirs[j] == Neg(dirs[i])
    requires OnBoard(FileOf(s) + dirs[i].0, RankOf(s) + dirs[i].1)
    requires to == Sq(FileOf(s) + dirs[i].0, RankOf(s) + dirs[i].1)
    ensures StepAttack(p, to, dirs, Kind(p[s]), side)
  {
    StepHitBack(p, side, s, dirs[i], to);
    hide StepHit, FileOf, RankOf;
  }

  /** The direction a slide went in. */
  lemma {:induction false} SlideSource(p: seq<nat>, side: nat, s: nat, dirs: seq<Dir>, m: Move) returns (i: nat)
    requires |p| == 64 && s < 64 && forall i :: 0 <= i < |dirs| ==> UnitDir(dirs[i])
    requires m in SlideMoves(p, side, s, dirs)
    ensures i < |dirs| && m in Ray(p, side, s, FileOf(s) + dirs[i].0, RankOf(s) + dirs[i].1, dirs[i])
  {
    hide Ray;
    i := |dirs| - 1;
    if m !in Ray(p, side, s, FileOf(s) + dirs[i].0, RankOf(s) + dirs[i].1, dirs[i]) {
      i := SlideSource(p, side, s, dirs[..i], m);
    }
  }

  lemma SlideTakeHits(p: seq<nat>, side: nat, s: nat, d: Dir, kind: nat, m: Move)
    requires |p| == 64 && s < 64 && p[s] != EMPTY && Color(p[s]) == side && UnitDir(d)
    requires Kind(p[s]) == kind || Kind(p[s]) == 5
    requires m in Ray(p, side, s, FileOf(s) + d.0, RankOf(s) + d.1, d)
    ensures m.to < 64 && SlideHit(p, FileOf(m.to), RankOf(m.to), Neg(d), kind, side)
  {
    assert Sq(FileOf(s), RankOf(s)) == s;
    RayWalksBack(p, side, s, FileOf(s) + d.0, RankOf(s) + d.1, d, m);
  }

  lemma SlideTakeAttacks(p: seq<nat>, side: nat, s: nat, dirs: seq<Dir>, i: nat, j: nat, kind: nat, m: Move)
    requires |p| == 64 && s < 64 && p[s] != EMPTY && Color(p[s]) == side
    requires forall i :: 0 <= i < |dirs| ==> UnitDir(dirs[i])
    requires i < |dirs| && j < |dirs| && dirs[j] == Neg(dirs[i])
    requires Kind(p[s]) == kind || Kind(p[s]) == 5
    requires m in Ray(p, side, s, FileOf(s) + dirs[i].0, RankOf(s) + dirs[i].1, dirs[i])
    ensures m.to < 64 && SlideAttack(p, m.to, dirs, kind, side)
  {
    SlideTakeHits(p, side, s, dirs[i], kind, m);
    assert SlideHit(p, FileOf(m.to), RankOf(m.to), dirs[j], kind, side);
  }

  lemma PawnTakeTarget(b: Position, s: nat, df: int, m: Move)
    requires Shape(b) && s < 64 && m in PawnTakes(b, s, df)
    ensures OnBoard(FileOf(s) + df, RankOf(s) + PawnDir(b.side))
    ensures m.to == Sq(FileOf(s) + df, RankOf(s) + PawnDir(b.side))
  {}

  lemma PawnTakeAttacks(b: Position, s: nat, df: int, m: Move)
    requires Shape(b) && OwnPiece(b, s) && Kind(b.piece[s]) == 1 && (df == 1 || df == -1)
    requires m in PawnTakes(b, s, df)
    ensures m.to < 64 && StepAttack(b.piece, m.to, PawnSources(b.side), 1, b.side)
  {
    var i := if df == 1 then 0 else 1;
    PawnTakeTarget(b, s, df, m);
    StepHitBack(b.piece, b.side, s, (df, PawnDir(b.side)), m.to);
    hide PawnTakes, StepHit, FileOf, RankOf;
    assert PawnSources(b.side)[i] == Neg((df, PawnDir(b.side)));
  }

  lemma KnightTakeAttacks(b: Position, s: nat, m: Move)
    requires Shape(b) && OwnPiece(b, s) && m in StepMoves(b.piece, b.side, s, KNIGHT_DIRS)
    ensures m.to < 64 && StepAttack(b.piece, m.to, KNIGHT_DIRS, Kind(b.piece[s]), b.side)
  {
    var i := StepSource(b.piece, b.side, s, KNIGHT_DIRS, m);
    StepTakeAttacks(b.piece, b.side, s, KNIGHT_DIRS, i, 7 - i, m.to);
  }

  lemma KingTakeAttacks(b: Position, s: nat, m: Move)
    requires Shape(b) && OwnPiece(b, s) && m in StepMoves(b.piece, b.side, s, KING_DIRS)
    ensures m.to < 64 && StepAttack(b.piece, m.to, KING_DIRS, Kind(b.piece[s]), b.side)
  {
    var i := StepSource(b.piece, b.side, s, KING_DIRS, m);
    StepTakeAttacks(b.piece, b.side, s, KING_DIRS, i, 7 - i, m.to);
  }

  lemma BishopTakeAttacks(b: Position, s: nat, m: Move)
    requires Shape(b) && OwnPiece(b, s) && m in SlideMoves(b.piece, b.side, s, BISHOP_DIRS)
    requires Kind(b.piece[s]) == 3 || Kind(b.piece[s]) == 5
    ensures m.to < 64 && SlideAttack(b.piece, m.to, BISHOP_DIRS, 3, b.side)
  {
    hide SlideMoves, SlideAttack, Ray;
    var i := SlideSource(b.piece, b.side, s, BISHOP_DIRS, m);
    SlideTakeAttacks(b.piece, b.side, s, BISHOP_DIRS, i, 3 - i, 3, m);
  }

  lemma RookTakeAttacks(b: Position, s: nat, m: Move)
    requires Shape(b) && OwnPiece(b, s) && m in SlideMoves(b.piece, b.side, s, ROOK_DIRS)
    requires Kind(b.piece[s]) == 4 || Kind(b.piece[s]) == 5
    ensures m.to < 64 && SlideAttack(b.piece, m.to, ROOK_DIRS, 4, b.side)
  {
    hide SlideMoves, SlideAttack, Ray;
    var i := SlideSource(b.piece, b.side, s, ROOK_DIRS, m);
    SlideTakeAttacks(b.piece, b.side, s, ROOK_DIRS, i, [1, 0, 3, 2][i], 4, m);
  }

  lemma PieceTakeAttacks(b: Position, s: nat, m: Move)
    requires Shape(b) && s < 64 && PieceCode(b.piece[s]) && m in PieceMoves(b, s) && IsCapture(m)
    ensures m.to < 64 && Attacked(b.piece, m.to, b.side)
  {
    hide StepAttack, SlideAttack, StepMoves, SlideMoves, PawnTakes;
    match Kind(b.piece[s])
    case 1 =>
      if m in PawnTakes(b, s, -1) { PawnTakeAttacks(b, s, -1, m); }
      else if m in PawnTakes(b, s, 1) { PawnTakeAttacks(b, s, 1, m); }
    case 2 => KnightTakeAttacks(b, s, m);
    case 3 => BishopTakeAttacks(b, s, m);
    case 4 => RookTakeAttacks(b, s, m);
    case 5 =>
      if m in SlideMoves(b.piece, b.side, s, BISHOP_DIRS) {
        BishopTakeAttacks(b, s, m);
      } else {
        RookTakeAttacks(b, s, m);
      }
    case _ => KingTakeAttacks(b, s, m);
  }

  lemma {:induction false} MovesBelowSource(b: Position, n: nat, m: Move) returns (s: nat)
    requires Shape(b) && n <= 64 && m in MovesBelow(b, n)
    ensures s < n && m in PieceMoves(b, s)
  {
    if m in PieceMoves(b, n - 1) { s := n - 1; } else { s := MovesBelowSource(b, n - 1, m); }
  }

  /** sq_attacked is complete for move generation: every generated capture lands on
      a square that sq_attacked reports as attacked by the side to move. */
  lemma CaptureIsAttack(b: Position, m: Move)
    requires Inv(b) && m in GenMoves(b) && IsCapture(m)
    ensures m.to < 64 && Attacked(b.piece, m.to, b.side)
  {
    var s := MovesBelowSource(b, 64, m);
    PieceTakeAttacks(b, s, m);
  }

  // ---- legal play --------------------------------------------------------------

  /** gen_legal_moves keeps m when it does not leave the mover's king attacked. */
  predicate Legal(b: Position, m: Move)
    requires Playable(b, m)
  {
    !InCheck(Make(b, m), b.side)
  }

  predicate KingsAt(b: Position)
    requires Shape(b)
  {
    forall i :: 0 <= i < 64 ==> (b.piece[i] == W_KING <==> i == b.wking) && (b.piece[i] == B_KING <==> i == b.bking)
  }

  /** Both kings stand where king_sq says and nowhere else, the king of the side
      that just moved is not attacked, and neither side has more than 16 pieces. */
  predicate KingsSafe(b: Position)
  {
    && Inv(b)
    && KingsAt(b)
    && !Attacked(b.piece, KingOf(b, Opp(b.side)), b.side)
    && Count(b.piece, IsWhite) <= 16 && Count(b.piece, IsBlack) <= 16
  }

  lemma LandsOnEmptyOrEnemy(b: Position, m: Move)
    requires Inv(b) && Fits(b, m)
    ensures b.piece[m.to] == EMPTY || (Enemy(b, b.piece[m.to]) && IsCapture(m))
  {}

  lemma EnemyKingSquare(b: Position, to: nat)
    requires KingsSafe(b) && to < 64 && Enemy(b, b.piece[to]) && Kind(b.piece[to]) == 6
    ensures !Attacked(b.piece, to, b.side)
  {
    assert PieceCode(b.piece[to]);
    assert to == KingOf(b, Opp(b.side));
  }

  /** A legal position offers no move that takes a king. */
  lemma KingNeverTaken(b: Position, m: Move)
    requires KingsSafe(b) && m in GenMoves(b)
    ensures m.to < 64 && Kind(b.piece[m.to]) != 6
  {
    GenMovesFit(b, m);
    LandsOnEmptyOrEnemy(b, m);
    if b.piece[m.to] != EMPTY && Kind(b.piece[m.to]) == 6 {
      CaptureIsAttack(b, m);
      EnemyKingSquare(b, m.to);
    }
  }

  /** The pieces a move puts down or moves: only the mover, a rook in castling, or a promoted piece. */
  lemma KingsAfter(b: Position, m: Move, i: nat)
    requires Inv(b) && Fits(b, m) && Kind(b.piece[m.to]) != 6 && i < 64
    ensures Playable(b, m)
    ensures Kind(Placed(b, m)[i]) == 6 <==>
            if i == m.to then Kind(b.piece[m.from]) == 6 else i != m.from && Kind(b.piece[i]) == 6
    ensures Kind(Placed(b, m)[i]) == 6 ==> Placed(b, m)[i] == if i == m.to then b.piece[m.from] else b.piece[i]
  {
    assert PieceCode(b.piece[m.from]);
    assert IsPromo(m) ==> 2 <= Kind(PromoPiece(m, b.side)) <= 5;
  }

  /** One square and one king: with the pieces there before and after the move, the king is on the
      square exactly if king_sq says so. */
  lemma KingSquare(code: nat, king: nat, mover: nat, from: nat, to: nat, i: nat, was: nat, now: nat)
    requires (code == W_KING || code == B_KING) && PieceCode(mover) && PieceCode(was) && (i == to ==> Kind(was) != 6)
    requires (was == code <==> i == king) && (mover == code <==> from == king)
    requires Kind(now) == 6 <==> if i == to then Kind(mover) == 6 else i != from && Kind(was) == 6
    requires Kind(now) == 6 ==> now == if i == to then mover else was
    ensures now == code <==> i == if mover == code then to else king
  {}

  lemma KingAt(b: Position, m: Move, i: nat)
    requires Inv(b) && KingsAt(b) && Fits(b, m) && Kind(b.piece[m.to]) != 6 && i < 64
    ensures Playable(b, m)
    ensures Make(b, m).piece[i] == W_KING <==> i == Make(b, m).wking
    ensures Make(b, m).piece[i] == B_KING <==> i == Make(b, m).bking
  {
    KingsAfter(b, m, i);
    var mover, was, now := b.piece[m.from], b.piece[i], Placed(b, m)[i];
    assert PieceCode(mover) && PieceCode(was);
    hide Inv, Placed;
    KingSquare(W_KING, b.wking, mover, m.from, m.to, i, was, now);
    KingSquare(B_KING, b.bking, mover, m.from, m.to, i, was, now);
    assert Kind(mover) == 6 && b.side == WHITE <==> mover == W_KING;
    assert Kind(mover) == 6 && b.side == BLACK <==> mover == B_KING;
    hide Fits;
  }

  lemma KingsTracked(b: Position, m: Move)
    requires Inv(b) && KingsAt(b) && Fits(b, m) && Kind(b.piece[m.to]) != 6
    ensures Playable(b, m) && KingsAt(Make(b, m))
  {
    KingAt(b, m, 0);
    var b' := Make(b, m);
    hide Make, Inv, Fits, Playable;
    forall i | 0 <= i < 64
      ensures (b'.piece[i] == W_KING <==> i == b'.wking) && (b'.piece[i] == B_KING <==> i == b'.bking)
    {
      KingAt(b, m, i);
    }
  }

  /** Legal play keeps both kings on the board, tracked and out of capture. */
  lemma LegalKeepsKings(b: Position, m: Move)
    requires KingsSafe(b) && m in GenMoves(b)
    requires Playable(b, m) && Legal(b, m)
    ensures KingsSafe(Make(b, m))
  {
    GenMovesFit(b, m);
    MakeKeepsInv(b, m);
    SideCounts(b, m);
    KingNeverTaken(b, m);
    KingsTracked(b, m);
  }

  // ---- whole games ---------------------------------------------------------------

  /** Each move of ms is generated on the board the previous ones lead to; with
      `legal`, none leaves the mover in check. */
  predicate Run(b: Position, ms: seq<Move>, legal: bool)
    requires Shape(b)
    decreases |ms|
  {
    ms == [] ||
    (ms[0] in GenMoves(b) && Playable(b, ms[0]) && (legal ==> Legal(b, ms[0])) && Run(Make(b, ms[0]), ms[1..], legal))
  }

  function Play(b: Position, ms: seq<Move>): (b': Position)
    requires Shape(b) && Run(b, ms, false)
    ensures Shape(b')
    decreases |ms|
  {
    if ms == [] then b else Play(Make(b, ms[0]), ms[1..])
  }

  /** The undo records collected while playing ms. */
  function Undos(b: Position, ms: seq<Move>): (us: seq<Undo>)
    requires Shape(b) && Run(b, ms, false)
    ensures |us| == |ms|
    decreases |ms|
  {
    if ms == [] then [] else [UndoFor(b, ms[0])] + Undos(Make(b, ms[0]), ms[1..])
  }

  predicate Undoable(m: Move, u: Undo)
  {
    MoveWord(m) && (m.flag == EP ==> 8 <= m.to < 56) && -1 <= u.ep < 8 && u.wking < 64 && u.bking < 64
  }

  /** Taking ms back, last move first. */
  function TakeBack(b: Position, ms: seq<Move>, us: seq<Undo>): (b': Position)
    requires Shape(b) && |us| == |ms|
    requires forall i :: 0 <= i < |ms| ==> Undoable(ms[i], us[i])
    ensures Shape(b')
    decreases |ms|
  {
    if ms == [] then b else
      assert Undoable(ms[0], us[0]);
      Unmake(TakeBack(b, ms[1..], us[1..]), ms[0], us[0])
  }

  lemma GeneratedIsPlayable(b: Position, m: Move)
    requires Shape(b) && m in GenMoves(b)
    ensures Playable(b, m) && MoveWord(m) && (m.flag == EP ==> 8 <= m.to < 56)
  {
    GenMovesFit(b, m);
  }

  lemma {:induction false} RunForgetsLegality(b: Position, ms: seq<Move>)
    requires Shape(b) && Run(b, ms, true)
    ensures Run(b, ms, false)
    decreases |ms|
  {
    if ms != [] { RunForgetsLegality(Make(b, ms[0]), ms[1..]); }
  }

  lemma {:induction false} CountNone(p: seq<nat>, q: nat -> bool)
    requires forall i :: 0 <= i < |p| ==> !q(p[i])
    ensures Count(p, q) == 0
  {
    if p != [] { CountNone(p[1..], q); }
  }

  lemma {:induction false} CountAppend(p: seq<nat>, p': seq<nat>, q: nat -> bool)
    ensures Count(p + p', q) == Count(p, q) + Count(p', q)
    ensures Count(p, q) <= |p|
  {
    if p == [] {
      assert p + p' == p';
    } else {
      assert (p + p')[1..] == p[1..] + p';
      CountAppend(p[1..], p', q);
    }
  }

  lemma StartCounts()
    ensures Count(START_PIECES, IsWhite) <= 16 && Count(START_PIECES, IsBlack) <= 16
  {
    var p := START_PIECES;
    assert p == p[..16] + p[16..] && p == p[..48] + p[48..];
    CountAppend(p[..16], p[16..], IsWhite);
    CountNone(p[16..], IsWhite);
    CountAppend(p[..48], p[48..], IsBlack);
    CountNone(p[..48], IsBlack);
    CountAppend(p[48..], [], IsBlack);
  }

  lemma StartNotInCheck()
    ensures !Attacked(START_PIECES, 60, WHITE)
  {}

  lemma StartInv()
    ensures Inv(START) && KingsAt(START)
  {}

  lemma StartIsSafe()
    ensures KingsSafe(START)
  {
    StartCounts();
    StartInv();
    StartNotInCheck();
    hide Inv, KingsAt, Attacked, Count;
  }

  /** Every board reached from a good one by generated moves is good. */
  lemma {:induction false} RunKeepsInv(b: Position, ms: seq<Move>)
    requires Inv(b) && Run(b, ms, false)
    ensures Inv(Play(b, ms))
    decreases |ms|
  {
    if ms != [] {
      GenMovesFit(b, ms[0]);
      MakeKeepsInv(b, ms[0]);
      RunKeepsInv(Make(b, ms[0]), ms[1..]);
    }
  }

  /** On every board reachable from the start by generated moves, unmake_move is
      an exact inverse of make_move for every generated move. */
  lemma UndoIsExactInPlay(ms: seq<Move>, m: Move)
    requires Run(START, ms, false) && m in GenMoves(Play(START, ms))
    ensures var b := Play(START, ms);
            Playable(b, m) && Unmake(Make(b, m), m, UndoFor(b, m)) == b
  {
    StartIsSafe();
    RunKeepsInv(START, ms);
    GenMovesFit(Play(START, ms), m);
    UnmakeRestores(Play(START, ms), m);
  }

  lemma {:induction false} UndosUndoable(b: Position, ms: seq<Move>)
    requires Shape(b) && Run(b, ms, false)
    ensures forall i :: 0 <= i < |ms| ==> Undoable(ms[i], Undos(b, ms)[i])
    decreases |ms|
  {
    if ms != [] {
      GeneratedIsPlayable(b, ms[0]);
      UndosUndoable(Make(b, ms[0]), ms[1..]);
      forall i | 0 <= i < |ms| ensures Undoable(ms[i], Undos(b, ms)[i]) {
        if i > 0 { assert Undoable(ms[1..][i - 1], Undos(Make(b, ms[0]), ms[1..])[i - 1]); }
      }
    }
  }

  /** A whole game taken back move by move returns to the board it began on. */
  lemma {:induction false} GameTakenBack(b: Position, ms: seq<Move>)
    requires Inv(b) && Run(b, ms, false)
    ensures forall i :: 0 <= i < |ms| ==> Undoable(ms[i], Undos(b, ms)[i])
    ensures TakeBack(Play(b, ms), ms, Undos(b, ms)) == b
    decreases |ms|
  {
    UndosUndoable(b, ms);
    if ms != [] {
      GenMovesFit(b, ms[0]);
      MakeKeepsInv(b, ms[0]);
      UnmakeRestores(b, ms[0]);
      GameTakenBack(Make(b, ms[0]), ms[1..]);
      assert Undos(b, ms)[1..] == Undos(Make(b, ms[0]), ms[1..]);
    }
  }

  lemma {:induction false} LegalRunKeepsKings(b: Position, ms: seq<Move>)
    requires KingsSafe(b) && Run(b, ms, true)
    ensures Run(b, ms, false) && KingsSafe(Play(b, ms))
    decreases |ms|
  {
    RunForgetsLegality(b, ms);
    if ms != [] {
      LegalKeepsKings(b, ms[0]);
      LegalRunKeepsKings(Make(b, ms[0]), ms[1..]);
    }
  }

  /** In every legal game from the start position both kings are on the board where
      king_sq says, the side not to move is not in check, and no generated move takes a king. */
  lemma KingsSurviveLegalPlay(ms: seq<Move>)
    requires Run(START, ms, true)
    ensures Run(START, ms, false) && KingsSafe(Play(START, ms))
    ensures forall m :: m in GenMoves(Play(START, ms)) ==> m.to < 64 && Kind(Play(START, ms).piece[m.to]) != 6
  {
    StartIsSafe();
    LegalRunKeepsKings(START, ms);
    forall m | m in GenMoves(Play(START, ms))
      ensures m.to < 64 && Kind(Play(START, ms).piece[m.to]) != 6
    {
      KingNeverTaken(Play(START, ms), m);
    }
  }

  // ---- castling rights and the half-move clock over whole games ------------------------

  predicate NoneFrom(ms: seq<Move>, s: nat) { forall i :: 0 <= i < |ms| ==> ms[i].from != s }

  predicate NoneTo(ms: seq<Move>, s: nat) { forall i :: 0 <= i < |ms| ==> ms[i].to != s }

  /** The rook on this square has neither moved nor been taken, and the king has not moved. */
  predicate Unmoved(ms: seq<Move>, king: nat, rook: nat)
  {
    NoneFrom(ms, king) && NoneFrom(ms, rook) && NoneTo(ms, rook)
  }

  lemma UnmovedNext(ms: seq<Move>, king: nat, rook: nat)
    requires ms != []
    ensures Unmoved(ms, king, rook) <==>
            ms[0].from != king && ms[0].from != rook && ms[0].to != rook && Unmoved(ms[1..], king, rook)
  {
    if ms[0].from != king && ms[0].from != rook && ms[0].to != rook && Unmoved(ms[1..], king, rook) {
      forall i | 0 <= i < |ms| ensures ms[i].from != king && ms[i].from != rook && ms[i].to != rook {
        if i > 0 { assert ms[i] == ms[1..][i - 1]; }
      }
    }
  }

  /** In every run a castling right is held exactly as long as its king and rook are unmoved. */
  lemma {:induction false} RightsInPlay(b: Position, ms: seq<Move>)
    requires Shape(b) && Run(b, ms, false)
    ensures Play(b, ms).castle ==
            Castling(b.castle.wk && Unmoved(ms, 4, 7), b.castle.wq && Unmoved(ms, 4, 0),
                     b.castle.bk && Unmoved(ms, 60, 63), b.castle.bq && Unmoved(ms, 60, 56))
    decreases |ms|
  {
    hide GenMoves, Unmoved;
    if ms == [] {
      NothingMoved(4, 7); NothingMoved(4, 0); NothingMoved(60, 63); NothingMoved(60, 56);
    } else {
      RightsInPlay(Make(b, ms[0]), ms[1..]);
      UnmovedNext(ms, 4, 7); UnmovedNext(ms, 4, 0); UnmovedNext(ms, 60, 63); UnmovedNext(ms, 60, 56);
    }
  }

  lemma NothingMoved(king: nat, rook: nat)
    ensures Unmoved([], king, rook)
  {}

  /** While a right is held its king is at home. */
  predicate KingsHome(b: Position)
  {
    (b.castle.wk || b.castle.wq ==> b.wking == 4) && (b.castle.bk || b.castle.bq ==> b.bking == 60)
  }

  lemma LegalKeepsHome(b: Position, m: Move)
    requires KingsSafe(b) && KingsHome(b) && m in GenMoves(b) && Playable(b, m)
    ensures KingsHome(Make(b, m))
  {
    hide GenMoves, Attacked, Count, Placed, Fits;
    GenMovesFit(b, m);
    MoverCode(b, m);
    assert (b.piece[m.from] == W_KING <==> m.from == b.wking) && (b.piece[m.from] == B_KING <==> m.from == b.bking);
    MoverKing(b, m);
    hide Inv, KingsAt;
  }

  lemma MoverKing(b: Position, m: Move)
    requires Inv(b) && Fits(b, m)
    ensures Kind(b.piece[m.from]) == 6 && b.side == WHITE <==> b.piece[m.from] == W_KING
    ensures Kind(b.piece[m.from]) == 6 && b.side == BLACK <==> b.piece[m.from] == B_KING
  {
    MoverCode(b, m);
  }

  /** In every legal game from the start a side that may still castle has king and rook at home. */
  lemma {:induction false} RightsMeanHome(b: Position, ms: seq<Move>)
    requires KingsSafe(b) && KingsHome(b) && Run(b, ms, true)
    ensures Run(b, ms, false) && KingsSafe(Play(b, ms)) && KingsHome(Play(b, ms)) && RooksHome(Play(b, ms))
    decreases |ms|
  {
    LegalRunKeepsKings(b, ms);
    if ms != [] {
      LegalKeepsKings(b, ms[0]);
      LegalKeepsHome(b, ms[0]);
      RightsMeanHome(Make(b, ms[0]), ms[1..]);
    }
  }

  /** A pawn move or a capture, en passant included. */
  predicate Irreversible(b: Position, m: Move)
    requires Playable(b, m)
  {
    Kind(b.piece[m.from]) == 1 || b.piece[m.to] != EMPTY
  }

  predicate ReversibleRun(b: Position, ms: seq<Move>)
    requires Shape(b) && Run(b, ms, false)
    decreases |ms|
  {
    ms == [] || (!Irreversible(b, ms[0]) && ReversibleRun(Make(b, ms[0]), ms[1..]))
  }

  /** The clock counts the moves since the last pawn move or capture. */
  lemma {:induction false} HalfMoveClock(b: Position, m: Move, ms: seq<Move>)
    requires Playable(b, m) && Irreversible(b, m)
    requires Run(Make(b, m), ms, false) && ReversibleRun(Make(b, m), ms)
    ensures Play(Make(b, m), ms).halfMoves == |ms| % 0x10000
  {
    ClockRuns(Make(b, m), ms);
  }

  lemma {:induction false} ClockRuns(b: Position, ms: seq<Move>)
    requires Shape(b) && b.halfMoves < 0x10000 && Run(b, ms, false) && ReversibleRun(b, ms)
    ensures Play(b, ms).halfMoves == (b.halfMoves + |ms|) % 0x10000
    decreases |ms|
  {
    hide GenMoves, Placed;
    if ms != [] {
      assert Make(b, ms[0]).halfMoves == (b.halfMoves + 1) % 0x10000;
      hide Make;
      ClockRuns(Make(b, ms[0]), ms[1..]);
      ClockStep(b.halfMoves, |ms|);
    }
  }

  lemma ClockStep(h: nat, n: nat)
    requires n > 0
    ensures ((h + 1) % 0x10000 + (n - 1)) % 0x10000 == (h + n) % 0x10000
  {}
}
