/**
 The chess board, move encoding, and the make/unmake pair.

 A `Position` is the value of a board; the class `Board` holds the same
 fields and updates them in place.  Piece codes are those of the engine:
 0 is empty, 1..6 are white pawn, knight, bishop, rook, queen, king, and
 9..14 the same for black, so the colour is the bit worth 8 and the kind is
 the code modulo 8.  The sixteen-bit move word is a record here; `Pack` and
 `Unpack` give the word.
 */
module ChessBoard {

  const EMPTY := 0
  const W_PAWN := 1
  const W_ROOK := 4
  const W_KING := 6
  const B_PAWN := 9
  const B_ROOK := 12
  const B_KING := 14

  const WHITE := 0
  const BLACK := 8

  const DOUBLE := 1
  const KS_CASTLE := 2
  const QS_CASTLE := 3
  const CAPTURE := 4
  const EP := 5

  function Color(p: nat): nat { if p % 16 >= 8 then 8 else 0 }
  function Kind(p: nat): nat { p % 8 }
  function Opp(side: nat): nat { if side == WHITE then BLACK else WHITE }

  predicate PieceCode(p: nat) { p == 0 || 1 <= p <= 6 || 9 <= p <= 14 }

  function Sq(f: int, r: int): int { r * 8 + f }
  function FileOf(s: nat): int { s % 8 }
  function RankOf(s: nat): int { s / 8 }
  predicate OnBoard(f: int, r: int) { 0 <= f < 8 && 0 <= r < 8 }

  datatype Move = Move(from: nat, to: nat, flag: nat)

  predicate MoveWord(m: Move) { m.from < 64 && m.to < 64 && m.flag < 16 }

  /** The word 0, which the search uses for "no move". */
  const NO_MOVE := Move(0, 0, 0)

  function Pack(m: Move): (w: nat)
    requires MoveWord(m)
    ensures w < 0x10000
  {
    m.from + 64 * m.to + 4096 * m.flag
  }

  function Unpack(w: nat): (m: Move)
  {
    Move(w % 64, w / 64 % 64, w / 4096)
  }

  /** The three fields of a packed move read back as they were. */
  lemma UnpackPack(m: Move)
    requires MoveWord(m)
    ensures Unpack(Pack(m)) == m
  {
    var w := Pack(m);
    var high := m.to + 64 * m.flag;
    assert w == 64 * high + m.from;
    assert w / 64 == high && w % 64 == m.from;
    assert w / 4096 == high / 64;
  }

  /** Every sixteen-bit word is the packing of exactly the move it unpacks to. */
  lemma PackUnpack(w: nat)
    requires w < 0x10000
    ensures MoveWord(Unpack(w)) && Pack(Unpack(w)) == w
  {
    var m := Unpack(w);
    assert w / 64 == 64 * (w / 4096) + m.to by {
      assert w / 64 / 64 == w / 4096;
    }
  }

  predicate IsCapture(m: Move) { m.flag == CAPTURE || m.flag == EP || m.flag >= 12 }
  predicate IsPromo(m: Move) { m.flag >= 8 }

  function PromoPiece(m: Move, side: nat): nat
  {
    (match m.flag % 4 case 0 => 2 case 1 => 3 case 2 => 4 case _ => 5) + side
  }

  datatype Castling = Castling(wk: bool, wq: bool, bk: bool, bq: bool)

  datatype Position = Position(
    piece: seq<nat>,
    side: nat,
    castle: Castling,
    ep: int,
    halfMoves: nat,
    wking: nat,
    bking: nat
  )

  function KingOf(b: Position, side: nat): nat { if side == WHITE then b.wking else b.bking }

  datatype Undo = Undo(captured: nat, castle: Castling, ep: int, halfMoves: nat, wking: nat, bking: nat)

  /** The shape of the record: array length, field ranges. */
  predicate Shape(b: Position)
  {
    && |b.piece| == 64
    && (b.side == WHITE || b.side == BLACK)
    && -1 <= b.ep < 8
    && b.wking < 64 && b.bking < 64
  }

  /** Square of the pawn taken en passant by a move of `side` to `to`. */
  function EpVictim(side: nat, to: nat): int { if side == WHITE then to - 8 else to + 8 }

  /** The moves make_move can apply without indexing outside the board. */
  predicate Playable(b: Position, m: Move)
  {
    Shape(b) && m.from < 64 && m.to < 64 && (m.flag == EP ==> 0 <= EpVictim(b.side, m.to) < 64)
  }

  /** The piece array after make_move. */
  function Placed(b: Position, m: Move): (p: seq<nat>)
    requires Playable(b, m)
    ensures |p| == 64
  {
    var mover := b.piece[m.from];
    if m.flag == EP then
      b.piece[EpVictim(b.side, m.to) := EMPTY][m.to := mover][m.from := EMPTY]
    else if m.flag == KS_CASTLE then
      var p := b.piece[m.to := mover][m.from := EMPTY];
      if b.side == WHITE then p[5 := W_ROOK][7 := EMPTY] else p[61 := B_ROOK][63 := EMPTY]
    else if m.flag == QS_CASTLE then
      var p := b.piece[m.to := mover][m.from := EMPTY];
      if b.side == WHITE then p[3 := W_ROOK][0 := EMPTY] else p[59 := B_ROOK][56 := EMPTY]
    else if m.flag >= 8 then
      b.piece[m.to := PromoPiece(m, b.side)][m.from := EMPTY]
    else
      b.piece[m.to := mover][m.from := EMPTY]
  }

  function KeptRights(c: Castling, from: nat, to: nat): Castling
  {
    Castling(
      c.wk && from != 7 && to != 7 && from != 4,
      c.wq && from != 0 && to != 0 && from != 4,
      c.bk && from != 63 && to != 63 && from != 60,
      c.bq && from != 56 && to != 56 && from != 60)
  }

  function Make(b: Position, m: Move): (b': Position)
    requires Playable(b, m)
    ensures Shape(b') && b'.side == Opp(b.side)
  {
    var mover := b.piece[m.from];
    Position(
      Placed(b, m),
      Opp(b.side),
      KeptRights(b.castle, m.from, m.to),
      if m.flag == DOUBLE then FileOf(m.from) else -1,
      if Kind(mover) == 1 || b.piece[m.to] != EMPTY then 0 else (b.halfMoves + 1) % 0x10000,
      if Kind(mover) == 6 && b.side == WHITE then m.to else b.wking,
      if Kind(mover) == 6 && b.side == BLACK then m.to else b.bking)
  }

  function UndoFor(b: Position, m: Move): Undo
    requires Playable(b, m)
  {
    Undo(if m.flag == EP then b.piece[EpVictim(b.side, m.to)] else b.piece[m.to],
         b.castle, b.ep, b.halfMoves, b.wking, b.bking)
  }

  /** The piece array after unmake_move by `side`. */
  function Unplaced(p: seq<nat>, side: nat, m: Move, captured: nat): (q: seq<nat>)
    requires |p| == 64 && m.from < 64 && m.to < 64
    requires m.flag == EP ==> 0 <= EpVictim(side, m.to) < 64
    ensures |q| == 64
  {
    if m.flag == EP then
      p[m.from := p[m.to]][m.to := EMPTY][EpVictim(side, m.to) := captured]
    else if m.flag == KS_CASTLE then
      var q := p[m.from := p[m.to]][m.to := EMPTY];
      if side == WHITE then q[7 := W_ROOK][5 := EMPTY] else q[63 := B_ROOK][61 := EMPTY]
    else if m.flag == QS_CASTLE then
      var q := p[m.from := p[m.to]][m.to := EMPTY];
      if side == WHITE then q[0 := W_ROOK][3 := EMPTY] else q[56 := B_ROOK][59 := EMPTY]
    else if m.flag >= 8 then
      p[m.from := 1 + side][m.to := captured]
    else
      p[m.from := p[m.to]][m.to := captured]
  }

  function Unmake(b: Position, m: Move, u: Undo): (b': Position)
    requires Shape(b) && m.from < 64 && m.to < 64
    requires m.flag == EP ==> 0 <= EpVictim(Opp(b.side), m.to) < 64
  {
    Position(Unplaced(b.piece, Opp(b.side), m, u.captured),
             Opp(b.side), u.castle, u.ep, u.halfMoves, u.wking, u.bking)
  }

  /** Board::new: the white back rank, then each square of the start position. */
  const BACK: seq<nat> := [4, 2, 3, 5, 6, 3, 2, 4]

  function StartPiece(s: nat): nat
    requires s < 64
  {
    if s < 8 then BACK[s]
    else if s < 16 then W_PAWN
    else if s < 48 then EMPTY
    else if s < 56 then B_PAWN
    else BACK[s - 56] + BLACK
  }

  const START_PIECES: seq<nat> := seq(64, s requires 0 <= s < 64 => StartPiece(s))

  const START := Position(START_PIECES, WHITE, Castling(true, true, true, true), -1, 0, 4, 60)

  /** The mutable board of the engine. */
  class Board {
    const piece: array<nat>
    var side: nat
    var castle: Castling
    var ep: int
    var halfMoves: nat
    var wking: nat
    var bking: nat

    function State(): Position
      reads this, piece
    {
      Position(piece[..], side, castle, ep, halfMoves, wking, bking)
    }

    /** A copy of a board value. */
    constructor Copy(b: Position)
      ensures State() == b && fresh(piece)
    {
      piece := new nat[|b.piece|](i requires 0 <= i < |b.piece| => b.piece[i]);
      side, castle, ep, halfMoves := b.side, b.castle, b.ep, b.halfMoves;
      wking, bking := b.wking, b.bking;
      new;
      assert piece[..] == b.piece;
    }

    /** Board::new: the setup loops yield the start position. */
    constructor ()
      ensures State() == START
      ensures fresh(piece)
    {
      var p := new nat[64](_ => EMPTY);
      piece := p;
      side, castle, ep, halfMoves := WHITE, Castling(true, true, true, true), -1, 0;
      wking, bking := 4, 60;
      new;
      var f := 0;
      while f < 8
        modifies piece
        invariant 0 <= f <= 8
        invariant fresh(piece) && piece.Length == 64
        invariant forall i :: 0 <= i < 64 ==>
                    piece[i] == if 8 <= i < 8 + f then W_PAWN else if 48 <= i < 48 + f then B_PAWN else EMPTY
      {
        piece[Sq(f, 1)] := W_PAWN;
        piece[Sq(f, 6)] := B_PAWN;
        f := f + 1;
      }
      f := 0;
      while f < 8
        modifies piece
        invariant 0 <= f <= 8
        invariant fresh(piece) && piece.Length == 64
        invariant forall i :: 8 <= i < 56 ==>
                    piece[i] == if i < 16 then W_PAWN else if 48 <= i then B_PAWN else EMPTY
        invariant forall i :: 0 <= i < f ==> piece[i] == BACK[i] && piece[56 + i] == BACK[i] + 8
      {
        piece[Sq(f, 0)] := BACK[f];
        piece[Sq(f, 7)] := BACK[f] + BLACK;
        f := f + 1;
      }
      assert piece[..] == START_PIECES;
    }

    method PlacePieces(m: Move) returns (captured: nat)
      requires Playable(State(), m)
      modifies piece
      ensures piece[..] == Placed(old(State()), m)
      ensures captured == UndoFor(old(State()), m).captured
    {
      var mover := piece[m.from];
      captured := piece[m.to];
      if m.flag == EP {
        var victim := EpVictim(side, m.to);
        captured := piece[victim];
        piece[victim] := EMPTY;
        piece[m.to] := mover;
        piece[m.from] := EMPTY;
      } else if m.flag == KS_CASTLE {
        piece[m.to] := mover;
        piece[m.from] := EMPTY;
        if side == WHITE { piece[5] := W_ROOK; piece[7] := EMPTY; }
        else { piece[61] := B_ROOK; piece[63] := EMPTY; }
      } else if m.flag == QS_CASTLE {
        piece[m.to] := mover;
        piece[m.from] := EMPTY;
        if side == WHITE { piece[3] := W_ROOK; piece[0] := EMPTY; }
        else { piece[59] := B_ROOK; piece[56] := EMPTY; }
      } else if m.flag >= 8 {
        piece[m.to] := PromoPiece(m, side);
        piece[m.from] := EMPTY;
      } else {
        piece[m.to] := mover;
        piece[m.from] := EMPTY;
      }
    }

    method DropRights(from: nat, to: nat)
      modifies this`castle
      ensures castle == KeptRights(old(castle), from, to)
    {
      if from == 0 || to == 0 { castle := castle.(wq := false); }
      if from == 7 || to == 7 { castle := castle.(wk := false); }
      if from == 56 || to == 56 { castle := castle.(bq := false); }
      if from == 63 || to == 63 { castle := castle.(bk := false); }
      if from == 4 { castle := castle.(wk := false, wq := false); }
      if from == 60 { castle := castle.(bk := false, bq := false); }
    }

    method MakeMove(m: Move) returns (undo: Undo)
      requires Playable(State(), m)
      modifies this, piece
      ensures State() == Make(old(State()), m)
      ensures undo == UndoFor(old(State()), m)
    {
      undo := Undo(EMPTY, castle, ep, halfMoves, wking, bking);
      var mover, target := piece[m.from], piece[m.to];
      var captured := PlacePieces(m);
      ep := if m.flag == DOUBLE then FileOf(m.from) else -1;
      halfMoves := (halfMoves + 1) % 0x10000;
      if Kind(mover) == 1 || target != EMPTY { halfMoves := 0; }
      if Kind(mover) == 6 {
        if side == WHITE { wking := m.to; } else { bking := m.to; }
      }
      DropRights(m.from, m.to);
      side := Opp(side);
      undo := undo.(captured := captured);
    }

    method UnmakeMove(m: Move, undo: Undo)
      requires Shape(State()) && m.from < 64 && m.to < 64
      requires m.flag == EP ==> 0 <= EpVictim(Opp(side), m.to) < 64
      modifies this, piece
      ensures State() == Unmake(old(State()), m, undo)
    {
      side := Opp(side);
      if m.flag == EP {
        var victim := EpVictim(side, m.to);
        piece[m.from] := piece[m.to];
        piece[m.to] := EMPTY;
        piece[victim] := undo.captured;
      } else if m.flag == KS_CASTLE {
        piece[m.from] := piece[m.to];
        piece[m.to] := EMPTY;
        if side == WHITE { piece[7] := W_ROOK; piece[5] := EMPTY; }
        else { piece[63] := B_ROOK; piece[61] := EMPTY; }
      } else if m.flag == QS_CASTLE {
        piece[m.from] := piece[m.to];
        piece[m.to] := EMPTY;
        if side == WHITE { piece[0] := W_ROOK; piece[3] := EMPTY; }
        else { piece[56] := B_ROOK; piece[59] := EMPTY; }
      } else if m.flag >= 8 {
        piece[m.from] := 1 + side;
        piece[m.to] := undo.captured;
      } else {
        piece[m.from] := piece[m.to];
        piece[m.to] := undo.captured;
      }
      assert piece[..] == Unplaced(old(State()).piece, side, m, undo.captured);
      castle, ep, halfMoves := undo.castle, undo.ep, undo.halfMoves;
      wking, bking := undo.wking, undo.bking;
    }
  }
}
