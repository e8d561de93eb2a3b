/**
 Static evaluation: material plus piece-square tables, seen from the side to move.
 */
module ChessEval {
  import opened ChessBoard
  import opened ChessMoves
  import opened ChessRules

  const PIECE_VAL: seq<int> := [0, 100, 320, 330, 500, 900, 20000]

  const PST_PAWN: seq<seq<int>> := [
    [0, 0, 0, 0, 0, 0, 0, 0],
    [5, 10, 10, -20, -20, 10, 10, 5],
    [5, -5, -10, 0, 0, -10, -5, 5],
    [0, 0, 0, 20, 20, 0, 0, 0],
    [5, 5, 10, 25, 25, 10, 5, 5],
    [10, 10, 20, 30, 30, 20, 10, 10],
    [50, 50, 50, 50, 50, 50, 50, 50],
    [0, 0, 0, 0, 0, 0, 0, 0]]

  const PST_KNIGHT: seq<seq<int>> := [
    [-50, -40, -30, -30, -30, -30, -40, -50],
    [-40, -20, 0, 5, 5, 0, -20, -40],
    [-30, 5, 10, 15, 15, 10, 5, -30],
    [-30, 0, 15, 20, 20, 15, 0, -30],
    [-30, 5, 15, 20, 20, 15, 5, -30],
    [-30, 0, 10, 15, 15, 10, 0, -30],
    [-40, -20, 0, 0, 0, 0, -20, -40],
    [-50, -40, -30, -30, -30, -30, -40, -50]]

  const PST_BISHOP: seq<seq<int>> := [
    [-20, -10, -10, -10, -10, -10, -10, -20],
    [-10, 5, 0, 0, 0, 0, 5, -10],
    [-10, 10, 10, 10, 10, 10, 10, -10],
    [-10, 0, 10, 10, 10, 10, 0, -10],
    [-10, 5, 5, 10, 10, 5, 5, -10],
    [-10, 0, 5, 10, 10, 5, 0, -10],
    [-10, 0, 0, 0, 0, 0, 0, -10],
    [-20, -10, -10, -10, -10, -10, -10, -20]]

  const PST_ROOK: seq<seq<int>> := [
    [0, 0, 0, 5, 5, 0, 0, 0],
    [-5, 0, 0, 0, 0, 0, 0, -5],
    [-5, 0, 0, 0, 0, 0, 0, -5],
    [-5, 0, 0, 0, 0, 0, 0, -5],
    [-5, 0, 0, 0, 0, 0, 0, -5],
    [-5, 0, 0, 0, 0, 0, 0, -5],
    [5, 10, 10, 10, 10, 10, 10, 5],
    [0, 0, 0, 0, 0, 0, 0, 0]]

  const PST_QUEEN: seq<seq<int>> := [
    [-20, -10, -10, -5, -5, -10, -10, -20],
    [-10, 0, 5, 0, 0, 0, 0, -10],
    [-10, 5, 5, 5, 5, 5, 0, -10],
    [0, 0, 5, 5, 5, 5, 0, -5],
    [-5, 0, 5, 5, 5, 5, 0, -5],
    [-10, 0, 5, 5, 5, 5, 0, -10],
    [-10, 0, 0, 0, 0, 0, 0, -10],
    [-20, -10, -10, -5, -5, -10, -10, -20]]

  const PST_KING_MID: seq<seq<int>> := [
    [20, 30, 10, 0, 0, 10, 30, 20],
    [20, 20, 0, 0, 0, 0, 20, 20],
    [-10, -20, -20, -20, -20, -20, -20, -10],
    [-20, -30, -30, -40, -40, -30, -30, -20],
    [-30, -40, -40, -50, -50, -40, -40, -30],
    [-30, -40, -40, -50, -50, -40, -40, -30],
    [-30, -40, -40, -50, -50, -40, -40, -30],
    [-30, -40, -40, -50, -50, -40, -40, -30]]

  function PstVal(kind: nat, s: nat): int
    requires s < 64
  {
    match kind
    case 1 => PST_PAWN[RankOf(s)][FileOf(s)]
    case 2 => PST_KNIGHT[RankOf(s)][FileOf(s)]
    case 3 => PST_BISHOP[RankOf(s)][FileOf(s)]
    case 4 => PST_ROOK[RankOf(s)][FileOf(s)]
    case 5 => PST_QUEEN[RankOf(s)][FileOf(s)]
    case 6 => PST_KING_MID[RankOf(s)][FileOf(s)]
    case _ => 0
  }

  function MirrorSq(s: nat): (r: nat)
    requires s < 64
    ensures r < 64 && FileOf(r) == FileOf(s) && RankOf(r) == 7 - RankOf(s)
  {
    (7 - s / 8) * 8 + s % 8
  }

  /** Contribution of the piece on square s, positive for white. */
  function SquareScore(p: nat, s: nat): int
    requires s < 64 && Kind(p) < 7
  {
    if p == EMPTY then 0
    else if p < 8 then PIECE_VAL[Kind(p)] + PstVal(Kind(p), s)
    else -(PIECE_VAL[Kind(p)] + PstVal(Kind(p), MirrorSq(s)))
  }

  function ScoreBelow(p: seq<nat>, n: nat): int
    requires |p| == 64 && n <= 64 && forall i :: 0 <= i < 64 ==> PieceCode(p[i])
  {
    if n == 0 then 0 else ScoreBelow(p, n - 1) + SquareScore(p[n - 1], n - 1)
  }

  function Evaluation(b: Position): int
    requires Inv(b)
  {
    if b.side == WHITE then ScoreBelow(b.piece, 64) else -ScoreBelow(b.piece, 64)
  }

  method Evaluate(b: Position) returns (score: int)
    requires Inv(b)
    ensures score == Evaluation(b)
  {
    hide PstVal, MirrorSq;
    score := 0;
    for s := 0 to 64
      invariant score == ScoreBelow(b.piece, s)
    {
      var p := b.piece[s];
      assert PieceCode(p);
      if p != EMPTY {
        var k := Kind(p);
        var v := PIECE_VAL[k];
        if p < 8 { score := score + (v + PstVal(k, s)); }
        else { score := score - (v + PstVal(k, MirrorSq(s))); }
      }
    }
    if b.side != WHITE { score := -score; }
  }

  lemma PstBounds(kind: nat, s: nat)
    requires s < 64
    ensures -50 <= PstVal(kind, s) <= 50
  {
  }

  /** A side's pieces other than the king are worth at most 950 each, a king 19950 to 20900. */
  lemma SquareScoreBounds(p: nat, s: nat)
    requires s < 64 && PieceCode(p)
    ensures IsWhite(p) ==> 0 <= SquareScore(p, s) - (if p == W_KING then 19950 else 0) <= 950
    ensures IsBlack(p) ==> 0 <= -SquareScore(p, s) - (if p == B_KING then 19950 else 0) <= 950
    ensures p == EMPTY ==> SquareScore(p, s) == 0
  {
    hide PstVal, MirrorSq;
    PstBounds(Kind(p), s);
    PstBounds(Kind(p), MirrorSq(s));
  }

  function KingBonus(b: Position, n: nat): int
  {
    (if b.wking < n then 19950 else 0) - (if b.bking < n then 19950 else 0)
  }

  lemma SquareStep(b: Position, n: nat)
    requires Inv(b) && KingsAt(b) && n < 64
    ensures var p := b.piece[n];
            -950 * B2N(IsBlack(p)) <=
            SquareScore(p, n) - (KingBonus(b, n + 1) - KingBonus(b, n)) <= 950 * B2N(IsWhite(p))
  {
    hide SquareScore;
    var p := b.piece[n];
    assert PieceCode(p);
    SquareScoreBounds(p, n);
    assert (p == W_KING <==> n == b.wking) && (p == B_KING <==> n == b.bking);
    hide KingsAt, Inv;
  }

  lemma CountNext(p: seq<nat>, n: nat, q: nat -> bool)
    requires n < |p|
    ensures Count(p[..n + 1], q) == Count(p[..n], q) + B2N(q(p[n]))
  {
    assert p[..n + 1] == p[..n] + [p[n]];
    CountAppend(p[..n], [p[n]], q);
    assert Count([p[n]], q) == B2N(q(p[n]));
  }

  lemma {:induction false} ScoreBounds(b: Position, n: nat)
    requires Inv(b) && KingsAt(b) && n <= 64
    ensures -950 * Count(b.piece[..n], IsBlack) <=
            ScoreBelow(b.piece, n) - KingBonus(b, n) <= 950 * Count(b.piece[..n], IsWhite)
  {
    if n > 0 {
      ScoreBounds(b, n - 1);
      SquareStep(b, n - 1);
      CountNext(b.piece, n - 1, IsWhite);
      CountNext(b.piece, n - 1, IsBlack);
      hide Count, SquareScore, KingBonus, PieceCode, KingsAt;
    }
  }

  /** 16 pieces a side, at 950 each; the two kings cancel. */
  const EVAL_BOUND := 15200

  lemma EvaluationBounds(b: Position)
    requires KingsSafe(b)
    ensures -EVAL_BOUND <= Evaluation(b) <= EVAL_BOUND
  {
    ScoreBounds(b, 64);
    assert b.piece[..64] == b.piece;
  }

  // ---- what the score means ------------------------------------------------------------

  ghost predicate Coded(p: seq<nat>) { |p| == 64 && forall i :: 0 <= i < 64 ==> PieceCode(p[i]) }

  /** Changing one square changes the score by what stood and what stands there. */
  lemma {:induction false} ScoreUpdate(p: seq<nat>, i: nat, v: nat, n: nat)
    requires Coded(p) && i < 64 && PieceCode(v) && n <= 64
    ensures ScoreBelow(p[i := v], n) ==
            ScoreBelow(p, n) + if i < n then SquareScore(v, i) - SquareScore(p[i], i) else 0
  {
    hide SquareScore;
    if n > 0 { ScoreUpdate(p, i, v, n - 1); }
  }

  /** What a piece of this side is worth for standing on s: the tables are for white and mirrored for black. */
  function Standing(side: nat, kind: nat, s: nat): int
    requires s < 64
  {
    PstVal(kind, if side == WHITE then s else MirrorSq(s))
  }

  /** What the mover gains by a plain move or capture: its piece stands better or worse, and a piece taken
      is lost to the opponent with its value and its standing. */
  function Gain(b: Position, m: Move): int
    requires Inv(b) && m.from < 64 && m.to < 64
  {
    var x, y := Kind(b.piece[m.from]), b.piece[m.to];
    assert PieceCode(y);
    Standing(b.side, x, m.to) - Standing(b.side, x, m.from) +
    if y == EMPTY then 0 else PIECE_VAL[Kind(y)] + Standing(Opp(b.side), Kind(y), m.to)
  }

  lemma WorthIs(p: nat, s: nat)
    requires s < 64 && PieceCode(p) && p != EMPTY
    ensures var worth := PIECE_VAL[Kind(p)] + Standing(Color(p), Kind(p), s);
            SquareScore(p, s) == if Color(p) == WHITE then worth else -worth
  {
    hide PstVal, MirrorSq;
  }

  lemma MoveGains(b: Position, m: Move)
    requires Inv(b) && Fits(b, m) && (m.flag == 0 || m.flag == DOUBLE || m.flag == CAPTURE)
    ensures Playable(b, m) && Inv(Make(b, m)) && -Evaluation(Make(b, m)) == Evaluation(b) + Gain(b, m)
  {
    MakeKeepsInv(b, m);
    var p, x, y := b.piece, b.piece[m.from], b.piece[m.to];
    assert PieceCode(x) && PieceCode(y);
    ScoreUpdate(p, m.to, x, 64);
    var q := p[m.to := x];
    ScoreUpdate(q, m.from, EMPTY, 64);
    assert Make(b, m).piece == q[m.from := EMPTY];
    assert SquareScore(EMPTY, m.from) == 0 && SquareScore(EMPTY, m.to) == 0;
    hide SquareScore, Inv, ScoreBelow, Standing;
    WorthIs(x, m.to);
    WorthIs(x, m.from);
    if y != EMPTY { WorthIs(y, m.to); }
    hide Fits;
  }

  /** Taking a piece never costs the mover more than its square does: the victim counts for it. */
  lemma VictimCounts(b: Position, t: nat)
    requires Inv(b) && t < 64 && Enemy(b, b.piece[t])
    ensures if b.side == WHITE then SquareScore(b.piece[t], t) <= -50 else SquareScore(b.piece[t], t) >= 50
  {
    var p := b.piece[t];
    assert PieceCode(p);
    PieceWorth(p, t);
    hide SquareScore, Inv;
  }

  lemma PieceWorth(p: nat, s: nat)
    requires s < 64 && PieceCode(p)
    ensures IsWhite(p) ==> SquareScore(p, s) >= 50
    ensures IsBlack(p) ==> SquareScore(p, s) <= -50
  {
    hide PstVal, MirrorSq;
    PstBounds(Kind(p), s);
    PstBounds(Kind(p), MirrorSq(s));
  }

  // ---- the same for both sides -----------------------------------------------------------

  function Flip(p: nat): nat { if p == EMPTY then EMPTY else if p < 8 then p + 8 else p - 8 }

  function MirrorPieces(p: seq<nat>): (q: seq<nat>)
    requires |p| == 64
    ensures |q| == 64
  {
    seq(64, s requires 0 <= s < 64 => Flip(p[MirrorSq(s)]))
  }

  /** The same game with colours and ranks exchanged. */
  function MirrorBoard(b: Position): Position
    requires Shape(b)
  {
    Position(MirrorPieces(b.piece), Opp(b.side), Castling(b.castle.bk, b.castle.bq, b.castle.wk, b.castle.wq),
             b.ep, b.halfMoves, MirrorSq(b.bking), MirrorSq(b.wking))
  }

  lemma MirrorMirror(s: nat)
    requires s < 64
    ensures MirrorSq(MirrorSq(s)) == s && MirrorSq(s) == 8 * (7 - s / 8) + s % 8
  {}

  lemma FlipScore(p: nat, s: nat)
    requires s < 64 && PieceCode(p)
    ensures PieceCode(Flip(p)) && SquareScore(Flip(p), s) == -SquareScore(p, MirrorSq(s))
  {
    hide PstVal, MirrorSq, Kind;
    MirrorMirror(s);
    FlipKind(p);
  }

  lemma FlipKind(p: nat)
    requires PieceCode(p)
    ensures PieceCode(Flip(p)) && Kind(Flip(p)) == Kind(p) && Kind(p) < 7
    ensures p != EMPTY ==> Flip(p) != EMPTY && (p < 8 <==> Flip(p) >= 8)
  {}

  lemma MirrorCoded(p: seq<nat>)
    requires Coded(p)
    ensures Coded(MirrorPieces(p))
  {
    hide MirrorSq;
    forall i | 0 <= i < 64 ensures PieceCode(MirrorPieces(p)[i]) { assert PieceCode(p[MirrorSq(i)]); }
  }

  /** The first n squares of rank r against those of rank 7 - r. */
  lemma {:induction false} MirrorRow(p: seq<nat>, r: nat, n: nat)
    requires Coded(p) && Coded(MirrorPieces(p)) && r < 8 && n <= 8
    ensures ScoreBelow(MirrorPieces(p), 8 * r + n) - ScoreBelow(MirrorPieces(p), 8 * r) ==
            -(ScoreBelow(p, 8 * (7 - r) + n) - ScoreBelow(p, 8 * (7 - r)))
  {
    hide SquareScore, MirrorSq, Flip, ScoreBelow;
    if n > 0 {
      MirrorRow(p, r, n - 1);
      var s, t := 8 * r + n - 1, 8 * (7 - r) + n - 1;
      MirrorMirror(s);
      assert s / 8 == r && s % 8 == n - 1;
      FlipScore(p[t], s);
      ScoreNext(MirrorPieces(p), s);
      ScoreNext(p, t);
    }
  }

  lemma ScoreNext(p: seq<nat>, n: nat)
    requires Coded(p) && n < 64
    ensures ScoreBelow(p, n + 1) == ScoreBelow(p, n) + SquareScore(p[n], n)
  {
    hide SquareScore;
  }

  function RowScore(p: seq<nat>, r: nat): int
    requires |p| == 64 && (forall i :: 0 <= i < 64 ==> PieceCode(p[i])) && r < 8
  {
    ScoreBelow(p, 8 * r + 8) - ScoreBelow(p, 8 * r)
  }

  lemma ScoreOfRows(p: seq<nat>)
    requires Coded(p)
    ensures ScoreBelow(p, 64) == RowScore(p, 0) + RowScore(p, 1) + RowScore(p, 2) + RowScore(p, 3) +
                                 RowScore(p, 4) + RowScore(p, 5) + RowScore(p, 6) + RowScore(p, 7)
  {
    assert ScoreBelow(p, 0) == 0;
    hide ScoreBelow;
  }

  lemma RowMirrored(p: seq<nat>, r: nat)
    requires Coded(p) && Coded(MirrorPieces(p)) && r < 8
    ensures RowScore(MirrorPieces(p), r) == -RowScore(p, 7 - r)
  {
    hide ScoreBelow, MirrorPieces;
    MirrorRow(p, r, 8);
  }

  lemma MirrorScore(p: seq<nat>)
    requires Coded(p)
    ensures Coded(MirrorPieces(p)) && ScoreBelow(MirrorPieces(p), 64) == -ScoreBelow(p, 64)
  {
    hide ScoreBelow, MirrorPieces, RowScore;
    MirrorCoded(p);
    ScoreOfRows(p);
    ScoreOfRows(MirrorPieces(p));
    RowMirrored(p, 0); RowMirrored(p, 1); RowMirrored(p, 2); RowMirrored(p, 3);
    RowMirrored(p, 4); RowMirrored(p, 5); RowMirrored(p, 6); RowMirrored(p, 7);
  }

  /** Square s of the mirrored board, opposite square t. */
  lemma MirrorAt(p: seq<nat>, s: nat, t: nat)
    requires |p| == 64 && s < 64 && t < 64 && s % 8 == t % 8 && s / 8 + t / 8 == 7
    ensures MirrorPieces(p)[s] == Flip(p[t])
  {
    MirrorMirror(s);
  }

  lemma MirrorRooks(b: Position)
    requires Shape(b) && RooksHome(b)
    ensures RooksHome(MirrorBoard(b))
  {
    hide MirrorSq, MirrorPieces;
    MirrorAt(b.piece, 0, 56);
    MirrorAt(b.piece, 7, 63);
    MirrorAt(b.piece, 56, 0);
    MirrorAt(b.piece, 63, 7);
  }

  lemma MirrorEp(b: Position)
    requires Shape(b) && EpPawnInPlace(b)
    ensures EpPawnInPlace(MirrorBoard(b))
  {
    hide MirrorSq, MirrorPieces;
    if b.ep >= 0 {
      MirrorAt(b.piece, 32 + b.ep, 24 + b.ep);
      MirrorAt(b.piece, 40 + b.ep, 16 + b.ep);
      MirrorAt(b.piece, 24 + b.ep, 32 + b.ep);
      MirrorAt(b.piece, 16 + b.ep, 40 + b.ep);
    }
  }

  lemma MirrorInv(b: Position)
    requires Inv(b)
    ensures Inv(MirrorBoard(b))
  {
    hide RooksHome, EpPawnInPlace, MirrorSq, MirrorPieces, PieceCode;
    MirrorCoded(b.piece);
    MirrorRooks(b);
    MirrorEp(b);
  }

  /** Evaluation is fair: with colours and ranks exchanged the side to move has the same score. */
  lemma EvaluationIsFair(b: Position)
    requires Inv(b)
    ensures Inv(MirrorBoard(b)) && Evaluation(MirrorBoard(b)) == Evaluation(b)
  {
    hide ScoreBelow, MirrorPieces;
    MirrorInv(b);
    MirrorScore(b.piece);
  }
}
