/**
 Attack detection and pseudo-legal move generation as functions of the board
 value.  The methods of `ChessEngine` compute these with loops.
 */
module ChessMoves {
  import opened ChessBoard

  type Dir = (int, int)

  const KNIGHT_DIRS: seq<Dir> := [(-2, -1), (-2, 1), (-1, -2), (-1, 2), (1, -2), (1, 2), (2, -1), (2, 1)]
  const BISHOP_DIRS: seq<Dir> := [(-1, -1), (-1, 1), (1, -1), (1, 1)]
  const ROOK_DIRS: seq<Dir> := [(-1, 0), (1, 0), (0, -1), (0, 1)]
  const KING_DIRS: seq<Dir> := [(-1, -1), (-1, 0), (-1, 1), (0, -1), (0, 1), (1, -1), (1, 0), (1, 1)]

  function PawnDir(side: nat): int { if side == WHITE then 1 else -1 }

  predicate UnitDir(d: Dir) { -1 <= d.0 <= 1 && -1 <= d.1 <= 1 && d != (0, 0) }

  /** Steps a ray can still take; the termination measure of every slide. */
  function RayLeft(f: int, r: int, d: Dir): int
  {
    if d.0 == 1 then 8 - f else if d.0 == -1 then f + 1 else if d.1 == 1 then 8 - r else r + 1
  }

  // ---- attacks -------------------------------------------------------------

  /** The first piece met walking from (f, r), inclusive, in direction d; 0 if none. */
  function RayHit(p: seq<nat>, f: int, r: int, d: Dir): nat
    requires |p| == 64 && UnitDir(d)
    decreases RayLeft(f, r, d)
  {
    if !OnBoard(f, r) then EMPTY
    else if p[Sq(f, r)] != EMPTY then p[Sq(f, r)]
    else RayHit(p, f + d.0, r + d.1, d)
  }

  predicate StepHit(p: seq<nat>, f: int, r: int, d: Dir, kind: nat, att: nat)
    requires |p| == 64
  {
    OnBoard(f + d.0, r + d.1) &&
    Kind(p[Sq(f + d.0, r + d.1)]) == kind && Color(p[Sq(f + d.0, r + d.1)]) == att
  }

  predicate SlideHit(p: seq<nat>, f: int, r: int, d: Dir, kind: nat, att: nat)
    requires |p| == 64 && UnitDir(d)
  {
    var h := RayHit(p, f + d.0, r + d.1, d);
    h != EMPTY && Color(h) == att && (Kind(h) == kind || Kind(h) == 5)
  }

  predicate StepAttack(p: seq<nat>, s: nat, dirs: seq<Dir>, kind: nat, att: nat)
    requires |p| == 64
  {
    exists i :: 0 <= i < |dirs| && StepHit(p, FileOf(s), RankOf(s), dirs[i], kind, att)
  }

  predicate SlideAttack(p: seq<nat>, s: nat, dirs: seq<Dir>, kind: nat, att: nat)
    requires |p| == 64 && forall i :: 0 <= i < |dirs| ==> UnitDir(dirs[i])
  {
    exists i :: 0 <= i < |dirs| && SlideHit(p, FileOf(s), RankOf(s), dirs[i], kind, att)
  }

  function PawnSources(att: nat): seq<Dir> { [(-1, -PawnDir(att)), (1, -PawnDir(att))] }

  /** sq_attacked: some piece of `att` bears on square s. */
  predicate Attacked(p: seq<nat>, s: nat, att: nat)
    requires |p| == 64
  {
    || StepAttack(p, s, PawnSources(att), 1, att)
    || StepAttack(p, s, KNIGHT_DIRS, 2, att)
    || StepAttack(p, s, KING_DIRS, 6, att)
    || SlideAttack(p, s, BISHOP_DIRS, 3, att)
    || SlideAttack(p, s, ROOK_DIRS, 4, att)
  }

  predicate InCheck(b: Position, side: nat)
    requires Shape(b)
  {
    Attacked(b.piece, KingOf(b, side), Opp(side))
  }

  // ---- move lists ----------------------------------------------------------

  /** A step or slide landing on (f, r): a quiet move, a capture, or nothing. */
  function Landing(p: seq<nat>, side: nat, s: nat, f: int, r: int): seq<Move>
    requires |p| == 64 && OnBoard(f, r)
  {
    var target := p[Sq(f, r)];
    if target == EMPTY then [Move(s, Sq(f, r), 0)]
    else if Color(target) != side then [Move(s, Sq(f, r), CAPTURE)]
    else []
  }

  function StepMoves(p: seq<nat>, side: nat, s: nat, dirs: seq<Dir>): seq<Move>
    requires |p| == 64
  {
    if dirs == [] then [] else
      var d := dirs[|dirs| - 1];
      var f, r := FileOf(s) + d.0, RankOf(s) + d.1;
      StepMoves(p, side, s, dirs[..|dirs| - 1]) +
      (if OnBoard(f, r) then Landing(p, side, s, f, r) else [])
  }

  /** The moves of one slide, from its current square (f, r) onwards. */
  function Ray(p: seq<nat>, side: nat, s: nat, f: int, r: int, d: Dir): seq<Move>
    requires |p| == 64 && UnitDir(d)
    decreases RayLeft(f, r, d)
  {
    if !OnBoard(f, r) then []
    else if p[Sq(f, r)] != EMPTY then Landing(p, side, s, f, r)
    else Landing(p, side, s, f, r) + Ray(p, side, s, f + d.0, r + d.1, d)
  }

  function SlideMoves(p: seq<nat>, side: nat, s: nat, dirs: seq<Dir>): seq<Move>
    requires |p| == 64 && forall i :: 0 <= i < |dirs| ==> UnitDir(dirs[i])
  {
    if dirs == [] then [] else
      var d := dirs[|dirs| - 1];
      SlideMoves(p, side, s, dirs[..|dirs| - 1]) + Ray(p, side, s, FileOf(s) + d.0, RankOf(s) + d.1, d)
  }

  function StartRank(side: nat): int { if side == WHITE then 1 else 6 }
  function PromoRank(side: nat): int { if side == WHITE then 7 else 0 }
  function EpRank(side: nat): int { if side == WHITE then 5 else 2 }

  /** Four promotions, knight first; `flag` is 8 for a push and 12 for a capture. */
  function Promotions(s: nat, to: nat, flag: nat): seq<Move>
  {
    [Move(s, to, flag), Move(s, to, flag + 1), Move(s, to, flag + 2), Move(s, to, flag + 3)]
  }

  function PawnPushes(b: Position, s: nat): seq<Move>
    requires Shape(b) && s < 64
  {
    var f, r, nr := FileOf(s), RankOf(s), RankOf(s) + PawnDir(b.side);
    if !OnBoard(f, nr) || b.piece[Sq(f, nr)] != EMPTY then []
    else if nr == PromoRank(b.side) then Promotions(s, Sq(f, nr), 8)
    else
      [Move(s, Sq(f, nr), 0)] +
      (if r == StartRank(b.side) && b.piece[Sq(f, r + 2 * PawnDir(b.side))] == EMPTY
       then [Move(s, Sq(f, r + 2 * PawnDir(b.side)), DOUBLE)] else [])
  }

  function PawnTakes(b: Position, s: nat, df: int): seq<Move>
    requires Shape(b) && s < 64
  {
    var f, nr := FileOf(s) + df, RankOf(s) + PawnDir(b.side);
    if !OnBoard(f, nr) then [] else
      var target := b.piece[Sq(f, nr)];
      (if target == EMPTY || Color(target) == b.side then []
       else if nr == PromoRank(b.side) then Promotions(s, Sq(f, nr), 12)
       else [Move(s, Sq(f, nr), CAPTURE)]) +
      (if b.ep >= 0 && f == b.ep && nr == EpRank(b.side) then [Move(s, Sq(f, nr), EP)] else [])
  }

  function PawnMoves(b: Position, s: nat): seq<Move>
    requires Shape(b) && s < 64
  {
    PawnPushes(b, s) + PawnTakes(b, s, -1) + PawnTakes(b, s, 1)
  }

  /** Castling on the king side: king on s, home square k, unless a square is filled or attacked. */
  predicate MayCastleShort(b: Position, s: nat, k: nat)
    requires Shape(b) && k + 3 < 64
  {
    s == k && b.piece[k + 1] == EMPTY && b.piece[k + 2] == EMPTY &&
    !Attacked(b.piece, k, Opp(b.side)) && !Attacked(b.piece, k + 1, Opp(b.side)) &&
        !Attacked(b.piece, k + 2, Opp(b.side))
  }

  predicate MayCastleLong(b: Position, s: nat, k: nat)
    requires Shape(b) && 4 <= k < 64
  {
    s == k && b.piece[k - 1] == EMPTY && b.piece[k - 2] == EMPTY && b.piece[k - 3] == EMPTY &&
    !Attacked(b.piece, k, Opp(b.side)) && !Attacked(b.piece, k - 1, Opp(b.side)) &&
        !Attacked(b.piece, k - 2, Opp(b.side))
  }

  function CastleMoves(b: Position, s: nat): seq<Move>
    requires Shape(b)
  {
    if b.side == WHITE then
      (if b.castle.wk && MayCastleShort(b, s, 4) then [Move(4, 6, KS_CASTLE)] else []) +
      (if b.castle.wq && MayCastleLong(b, s, 4) then [Move(4, 2, QS_CASTLE)] else [])
    else
      (if b.castle.bk && MayCastleShort(b, s, 60) then [Move(60, 62, KS_CASTLE)] else []) +
      (if b.castle.bq && MayCastleLong(b, s, 60) then [Move(60, 58, QS_CASTLE)] else [])
  }

  function PieceMoves(b: Position, s: nat): seq<Move>
    requires Shape(b) && s < 64
  {
    var p := b.piece[s];
    if p == EMPTY || Color(p) != b.side then [] else
      match Kind(p)
      case 1 => PawnMoves(b, s)
      case 2 => StepMoves(b.piece, b.side, s, KNIGHT_DIRS)
      case 3 => SlideMoves(b.piece, b.side, s, BISHOP_DIRS)
      case 4 => SlideMoves(b.piece, b.side, s, ROOK_DIRS)
      case 5 => SlideMoves(b.piece, b.side, s, BISHOP_DIRS) + SlideMoves(b.piece, b.side, s, ROOK_DIRS)
      case 6 => StepMoves(b.piece, b.side, s, KING_DIRS) + CastleMoves(b, s)
      case _ => []
  }

  /** The moves of all pieces on squares below n, in the order they are pushed. */
  function MovesBelow(b: Position, n: nat): seq<Move>
    requires Shape(b) && n <= 64
  {
    if n == 0 then [] else MovesBelow(b, n - 1) + PieceMoves(b, n - 1)
  }

  const MAX_MOVES := 256

  /** What a move list holds after pushing `ms`: pushes beyond 256 are dropped. */
  function Cap(ms: seq<Move>): seq<Move> { if |ms| <= MAX_MOVES then ms else ms[..MAX_MOVES] }

  function GenMoves(b: Position): seq<Move>
    requires Shape(b)
  {
    Cap(MovesBelow(b, 64))
  }

  // ---- what every generated move satisfies ----------------------------------

  predicate Enemy(b: Position, p: nat) { p != EMPTY && Color(p) != b.side }

  /** The facts about a generated move that make_move and unmake_move depend on. */
  predicate Fits(b: Position, m: Move)
    requires Shape(b)
  {
    && MoveWord(m) && m.from != m.to
    && b.piece[m.from] != EMPTY && Color(b.piece[m.from]) == b.side
    && (m.flag == 0 ==> b.piece[m.to] == EMPTY)
    && (m.flag == DOUBLE ==> FitsDouble(b, m))
    && (m.flag == KS_CASTLE ==> FitsShort(b, m))
    && (m.flag == QS_CASTLE ==> FitsLong(b, m))
    && (m.flag == CAPTURE ==> Enemy(b, b.piece[m.to]))
    && (m.flag == EP ==> FitsEp(b, m))
    && m.flag != 6 && m.flag != 7
    && (m.flag >= 8 ==> Kind(b.piece[m.from]) == 1 &&
                        if m.flag >= 12 then Enemy(b, b.piece[m.to]) else b.piece[m.to] == EMPTY)
  }

  predicate FitsDouble(b: Position, m: Move)
    requires Shape(b) && MoveWord(m)
  {
    && Kind(b.piece[m.from]) == 1 && b.piece[m.to] == EMPTY
    && if b.side == WHITE then 8 <= m.from < 16 && m.to == m.from + 16 && b.piece[m.from + 8] == EMPTY
       else 48 <= m.from < 56 && m.to == m.from - 16 && b.piece[m.from - 8] == EMPTY
  }

  predicate FitsShort(b: Position, m: Move)
    requires Shape(b) && MoveWord(m)
  {
    && Kind(b.piece[m.from]) == 6
    && if b.side == WHITE then b.castle.wk && m.from == 4 && m.to == 6 && b.piece[5] == EMPTY && b.piece[6] == EMPTY
       else b.castle.bk && m.from == 60 && m.to == 62 && b.piece[61] == EMPTY && b.piece[62] == EMPTY
  }

  predicate FitsLong(b: Position, m: Move)
    requires Shape(b) && MoveWord(m)
  {
    && Kind(b.piece[m.from]) == 6
    && if b.side == WHITE then b.castle.wq && m.from == 4 && m.to == 2 && b.piece[3] == EMPTY && b.piece[2] == EMPTY
       else b.castle.bq && m.from == 60 && m.to == 58 && b.piece[59] == EMPTY && b.piece[58] == EMPTY
  }

  predicate FitsEp(b: Position, m: Move)
    requires Shape(b) && MoveWord(m)
  {
    && Kind(b.piece[m.from]) == 1 && 0 <= b.ep
    && if b.side == WHITE then m.to == 40 + b.ep && (m.from == m.to - 9 || m.from == m.to - 7)
       else m.to == 16 + b.ep && (m.from == m.to + 9 || m.from == m.to + 7)
  }

  ghost predicate AllFit(b: Position, ms: seq<Move>)
    requires Shape(b)
  {
    forall i :: 0 <= i < |ms| ==> Fits(b, ms[i])
  }

  predicate OwnPiece(b: Position, s: nat)
    requires Shape(b)
  {
    s < 64 && b.piece[s] != EMPTY && Color(b.piece[s]) == b.side
  }

  lemma LandingFits(b: Position, s: nat, f: int, r: int)
    requires Shape(b) && OwnPiece(b, s) && OnBoard(f, r) && Sq(f, r) != s
    ensures AllFit(b, Landing(b.piece, b.side, s, f, r))
  {}

  lemma {:induction false} StepMovesFit(b: Position, s: nat, dirs: seq<Dir>)
    requires Shape(b) && OwnPiece(b, s)
    requires forall i :: 0 <= i < |dirs| ==> Sq(dirs[i].0, dirs[i].1) != 0
    ensures AllFit(b, StepMoves(b.piece, b.side, s, dirs))
  {
    if dirs != [] {
      StepMovesFit(b, s, dirs[..|dirs| - 1]);
      var d := dirs[|dirs| - 1];
      var f, r := FileOf(s) + d.0, RankOf(s) + d.1;
      if OnBoard(f, r) { LandingFits(b, s, f, r); }
    }
  }

  /** (f, r) lies strictly beyond s in direction d. */
  predicate Ahead(s: nat, f: int, r: int, d: Dir)
  {
    if d.0 == 1 then f > FileOf(s) else if d.0 == -1 then f < FileOf(s)
    else if d.1 == 1 then r > RankOf(s) else r < RankOf(s)
  }

  lemma {:induction false} RayFits(b: Position, s: nat, f: int, r: int, d: Dir)
    requires Shape(b) && OwnPiece(b, s) && UnitDir(d) && Ahead(s, f, r, d)
    ensures AllFit(b, Ray(b.piece, b.side, s, f, r, d))
    decreases RayLeft(f, r, d)
  {
    if OnBoard(f, r) {
      LandingFits(b, s, f, r);
      if b.piece[Sq(f, r)] == EMPTY {
        RayFits(b, s, f + d.0, r + d.1, d);
      }
    }
  }

  lemma {:induction false} SlideMovesFit(b: Position, s: nat, dirs: seq<Dir>)
    requires Shape(b) && OwnPiece(b, s)
    requires forall i :: 0 <= i < |dirs| ==> UnitDir(dirs[i])
    ensures AllFit(b, SlideMoves(b.piece, b.side, s, dirs))
  {
    if dirs != [] {
      SlideMovesFit(b, s, dirs[..|dirs| - 1]);
      var d := dirs[|dirs| - 1];
      RayFits(b, s, FileOf(s) + d.0, RankOf(s) + d.1, d);
    }
  }

  lemma PawnPushesFit(b: Position, s: nat)
    requires Shape(b) && OwnPiece(b, s) && Kind(b.piece[s]) == 1
    ensures AllFit(b, PawnPushes(b, s))
  {}

  lemma PawnTakesFit(b: Position, s: nat, df: int)
    requires Shape(b) && OwnPiece(b, s) && Kind(b.piece[s]) == 1 && (df == 1 || df == -1)
    ensures AllFit(b, PawnTakes(b, s, df))
  {}

  lemma AllFitAppend(b: Position, ms: seq<Move>, ms': seq<Move>)
    requires Shape(b) && AllFit(b, ms) && AllFit(b, ms')
    ensures AllFit(b, ms + ms')
  {
    hide Fits;
  }

  lemma CastleMovesFit(b: Position, s: nat)
    requires Shape(b) && OwnPiece(b, s) && Kind(b.piece[s]) == 6
    ensures AllFit(b, CastleMoves(b, s))
  {
    hide Attacked;
  }

  lemma PieceMovesFit(b: Position, s: nat)
    requires Shape(b) && s < 64
    ensures AllFit(b, PieceMoves(b, s))
  {
    if OwnPiece(b, s) {
      hide Fits, StepMoves, SlideMoves, PawnPushes, PawnTakes, CastleMoves;
      match Kind(b.piece[s])
      case 1 =>
        PawnPushesFit(b, s); PawnTakesFit(b, s, -1); PawnTakesFit(b, s, 1);
        AllFitAppend(b, PawnPushes(b, s), PawnTakes(b, s, -1));
        AllFitAppend(b, PawnPushes(b, s) + PawnTakes(b, s, -1), PawnTakes(b, s, 1));
      case 2 => StepMovesFit(b, s, KNIGHT_DIRS);
      case 3 => SlideMovesFit(b, s, BISHOP_DIRS);
      case 4 => SlideMovesFit(b, s, ROOK_DIRS);
      case 5 =>
        SlideMovesFit(b, s, BISHOP_DIRS); SlideMovesFit(b, s, ROOK_DIRS);
        AllFitAppend(b, SlideMoves(b.piece, b.side, s, BISHOP_DIRS), SlideMoves(b.piece, b.side, s, ROOK_DIRS));
      case 6 =>
        StepMovesFit(b, s, KING_DIRS); CastleMovesFit(b, s);
        AllFitAppend(b, StepMoves(b.piece, b.side, s, KING_DIRS), CastleMoves(b, s));
      case _ =>
    }
  }

  lemma {:induction false} MovesBelowFit(b: Position, n: nat)
    requires Shape(b) && n <= 64
    ensures AllFit(b, MovesBelow(b, n))
  {
    if n > 0 {
      MovesBelowFit(b, n - 1);
      PieceMovesFit(b, n - 1);
    }
  }

  /** Every generated move fits the board it was generated for. */
  lemma GenMovesFit(b: Position, m: Move)
    requires Shape(b) && m in GenMoves(b)
    ensures Fits(b, m)
  {
    MovesBelowFit(b, 64);
  }
}
