/**
 The loops of attack detection and move generation.  Read-only uses of the
 board take its value; the move list is filled in place.
 */
module ChessEngine {
  import opened ChessBoard
  import opened ChessMoves

  /** A fixed buffer of 256 moves; pushes beyond it are dropped. */
  class MoveList {
    const moves: array<Move>
    var count: nat

    predicate Valid()
      reads this
    {
      moves.Length == MAX_MOVES && count <= MAX_MOVES
    }

    function View(): seq<Move>
      requires Valid()
      reads this, moves
    {
      moves[..count]
    }

    constructor ()
      ensures Valid() && View() == [] && fresh(moves)
    {
      moves := new Move[MAX_MOVES](_ => NO_MOVE);
      count := 0;
    }

    method Push(m: Move)
      requires Valid()
      modifies this, moves
      ensures Valid() && View() == Cap(old(View()) + [m])
    {
      if count < MAX_MOVES {
        moves[count] := m;
        count := count + 1;
        assert View() == old(View()) + [m];
      } else {
        assert (old(View()) + [m])[..MAX_MOVES] == old(View());
      }
    }
  }

  lemma CapAppend(a: seq<Move>, x: seq<Move>, y: seq<Move>)
    ensures Cap(Cap(a + x) + y) == Cap(a + (x + y))
  {
    assert a + (x + y) == a + x + y;
  }

  /** sq_attacked. */
  method StepScan(p: seq<nat>, f: int, r: int, dirs: seq<Dir>, kind: nat, att: nat) returns (hit: bool)
    requires |p| == 64
    ensures hit <==> exists i :: 0 <= i < |dirs| && StepHit(p, f, r, dirs[i], kind, att)
  {
    for i := 0 to |dirs|
      invariant forall k :: 0 <= k < i ==> !StepHit(p, f, r, dirs[k], kind, att)
    {
      var nf, nr := f + dirs[i].0, r + dirs[i].1;
      if OnBoard(nf, nr) {
        var attacker := p[Sq(nf, nr)];
        if Kind(attacker) == kind && Color(attacker) == att {
          assert StepHit(p, f, r, dirs[i], kind, att);
          return true;
        }
      }
    }
    return false;
  }

  method RayScan(p: seq<nat>, f: int, r: int, d: Dir) returns (q: nat)
    requires |p| == 64 && UnitDir(d)
    ensures q == RayHit(p, f, r, d)
  {
    var nf, nr := f, r;
    while OnBoard(nf, nr)
      invariant RayHit(p, f, r, d) == RayHit(p, nf, nr, d)
      decreases RayLeft(nf, nr, d)
    {
      q := p[Sq(nf, nr)];
      if q != EMPTY { return; }
      nf, nr := nf + d.0, nr + d.1;
    }
    q := EMPTY;
  }

  method SlideScan(p: seq<nat>, f: int, r: int, dirs: seq<Dir>, kind: nat, att: nat) returns (hit: bool)
    requires |p| == 64 && forall i :: 0 <= i < |dirs| ==> UnitDir(dirs[i])
    ensures hit <==> exists i :: 0 <= i < |dirs| && SlideHit(p, f, r, dirs[i], kind, att)
  {
    for i := 0 to |dirs|
      invariant forall k :: 0 <= k < i ==> !SlideHit(p, f, r, dirs[k], kind, att)
    {
      var d := dirs[i];
      var q := RayScan(p, f + d.0, r + d.1, d);
      if q != EMPTY && Color(q) == att && (Kind(q) == kind || Kind(q) == 5) {
        assert SlideHit(p, f, r, dirs[i], kind, att);
        return true;
      }
    }
    return false;
  }

  method SqAttacked(b: Position, s: nat, att: nat) returns (hit: bool)
    requires Shape(b) && s < 64
    ensures hit == Attacked(b.piece, s, att)
  {
    var f, r := FileOf(s), RankOf(s);
    hit := StepScan(b.piece, f, r, PawnSources(att), 1, att);
    if hit { return; }
    hit := StepScan(b.piece, f, r, KNIGHT_DIRS, 2, att);
    if hit { return; }
    hit := StepScan(b.piece, f, r, KING_DIRS, 6, att);
    if hit { return; }
    hit := SlideScan(b.piece, f, r, BISHOP_DIRS, 3, att);
    if hit { return; }
    hit := SlideScan(b.piece, f, r, ROOK_DIRS, 4, att);
  }

  lemma CapSteps(a: seq<Move>, p: seq<nat>, side: nat, s: nat, dirs: seq<Dir>, i: nat)
    requires |p| == 64 && i < |dirs|
    ensures var f, r := FileOf(s) + dirs[i].0, RankOf(s) + dirs[i].1;
            var pushed := if OnBoard(f, r) then Landing(p, side, s, f, r) else [];
            Cap(Cap(a + StepMoves(p, side, s, dirs[..i])) + pushed) == Cap(a + StepMoves(p, side, s, dirs[..i + 1]))
  {
    var f, r := FileOf(s) + dirs[i].0, RankOf(s) + dirs[i].1;
    assert dirs[..i + 1][..i] == dirs[..i];
    CapAppend(a, StepMoves(p, side, s, dirs[..i]), if OnBoard(f, r) then Landing(p, side, s, f, r) else []);
  }

  method GenStepMoves(p: seq<nat>, s: nat, side: nat, dirs: seq<Dir>, ml: MoveList)
    requires |p| == 64 && ml.Valid()
    modifies ml, ml.moves
    ensures ml.Valid() && ml.View() == Cap(old(ml.View()) + StepMoves(p, side, s, dirs))
  {
    assert ml.View() + [] == ml.View();
    for i := 0 to |dirs|
      invariant ml.Valid() && ml.View() == Cap(old(ml.View()) + StepMoves(p, side, s, dirs[..i]))
    {
      var nf, nr := FileOf(s) + dirs[i].0, RankOf(s) + dirs[i].1;
      ghost var before := ml.View();
      ghost var pushed: seq<Move> := if OnBoard(nf, nr) then Landing(p, side, s, nf, nr) else [];
      if OnBoard(nf, nr) {
        var target := p[Sq(nf, nr)];
        if target == EMPTY {
          ml.Push(Move(s, Sq(nf, nr), 0));
        } else if Color(target) != side {
          ml.Push(Move(s, Sq(nf, nr), CAPTURE));
        }
      }
      assert before + [] == before;
      assert ml.View() == Cap(before + pushed);
      CapSteps(old(ml.View()), p, side, s, dirs, i);
    }
    assert dirs[..|dirs|] == dirs;
  }

  lemma CapSlides(a: seq<Move>, p: seq<nat>, side: nat, s: nat, dirs: seq<Dir>, i: nat)
    requires |p| == 64 && i < |dirs| && forall i :: 0 <= i < |dirs| ==> UnitDir(dirs[i])
    ensures Cap(Cap(a + SlideMoves(p, side, s, dirs[..i])) +
                Ray(p, side, s, FileOf(s) + dirs[i].0, RankOf(s) + dirs[i].1, dirs[i]))
         == Cap(a + SlideMoves(p, side, s, dirs[..i + 1]))
  {
    var d := dirs[i];
    assert dirs[..i + 1][..i] == dirs[..i];
    CapAppend(a, SlideMoves(p, side, s, dirs[..i]), Ray(p, side, s, FileOf(s) + d.0, RankOf(s) + d.1, d));
  }

  method GenSlideMoves(p: seq<nat>, s: nat, side: nat, dirs: seq<Dir>, ml: MoveList)
    requires |p| == 64 && ml.Valid() && forall i :: 0 <= i < |dirs| ==> UnitDir(dirs[i])
    modifies ml, ml.moves
    ensures ml.Valid() && ml.View() == Cap(old(ml.View()) + SlideMoves(p, side, s, dirs))
  {
    assert ml.View() + [] == ml.View();
    for i := 0 to |dirs|
      invariant ml.Valid() && ml.View() == Cap(old(ml.View()) + SlideMoves(p, side, s, dirs[..i]))
    {
      var d := dirs[i];
      SlideOneWay(p, s, side, FileOf(s) + d.0, RankOf(s) + d.1, d, ml);
      CapSlides(old(ml.View()), p, side, s, dirs, i);
    }
    assert dirs[..|dirs|] == dirs;
  }

  /** The inner loop of gen_slide_moves. */
  method SlideOneWay(p: seq<nat>, s: nat, side: nat, f: int, r: int, d: Dir, ml: MoveList)
    requires |p| == 64 && ml.Valid() && UnitDir(d)
    modifies ml, ml.moves
    ensures ml.Valid() && ml.View() == Cap(old(ml.View()) + Ray(p, side, s, f, r, d))
  {
    hide Ray, Cap;
    var nf, nr := f, r;
    ghost var goal := Cap(ml.View() + Ray(p, side, s, f, r, d));
    while OnBoard(nf, nr)
      invariant ml.Valid() && Cap(ml.View() + Ray(p, side, s, nf, nr, d)) == goal
      decreases RayLeft(nf, nr, d)
    {
      var target := p[Sq(nf, nr)];
      if target == EMPTY {
        RayStep(ml.View(), p, side, s, nf, nr, d);
        ml.Push(Move(s, Sq(nf, nr), 0));
      } else {
        RayEnd(ml.View(), p, side, s, nf, nr, d);
        if Color(target) != side {
          ml.Push(Move(s, Sq(nf, nr), CAPTURE));
        }
        return;
      }
      nf, nr := nf + d.0, nr + d.1;
    }
    RayEnd(ml.View(), p, side, s, nf, nr, d);
  }

  lemma RayEnd(a: seq<Move>, p: seq<nat>, side: nat, s: nat, f: int, r: int, d: Dir)
    requires |p| == 64 && UnitDir(d) && |a| <= MAX_MOVES && (OnBoard(f, r) ==> p[Sq(f, r)] != EMPTY)
    ensures Cap(a + Ray(p, side, s, f, r, d)) ==
            if OnBoard(f, r) && Color(p[Sq(f, r)]) != side then Cap(a + [Move(s, Sq(f, r), CAPTURE)]) else a
  {
    assert a + [] == a;
  }

  lemma RayStep(a: seq<Move>, p: seq<nat>, side: nat, s: nat, f: int, r: int, d: Dir)
    requires |p| == 64 && UnitDir(d) && OnBoard(f, r) && p[Sq(f, r)] == EMPTY
    ensures Cap(a + Ray(p, side, s, f, r, d)) ==
            Cap(Cap(a + [Move(s, Sq(f, r), 0)]) + Ray(p, side, s, f + d.0, r + d.1, d))
  {
    var rest := Ray(p, side, s, f + d.0, r + d.1, d);
    assert Ray(p, side, s, f, r, d) == [Move(s, Sq(f, r), 0)] + rest;
    hide Ray;
    CapAppend(a, [Move(s, Sq(f, r), 0)], rest);
  }

  method PushPromotions(s: nat, to: nat, flag: nat, ml: MoveList)
    requires ml.Valid()
    modifies ml, ml.moves
    ensures ml.Valid() && ml.View() == Cap(old(ml.View()) + Promotions(s, to, flag))
  {
    ml.Push(Move(s, to, flag));
    ml.Push(Move(s, to, flag + 1));
    ml.Push(Move(s, to, flag + 2));
    ml.Push(Move(s, to, flag + 3));
  }

  method GenPawnMoves(b: Position, s: nat, ml: MoveList)
    requires Shape(b) && s < 64 && ml.Valid()
    modifies ml, ml.moves
    ensures ml.Valid() && ml.View() == Cap(old(ml.View()) + PawnMoves(b, s))
  {
    PushPawnPushes(b, s, ml);
    PushPawnTakes(b, s, -1, ml);
    CapAppend(old(ml.View()), PawnPushes(b, s), PawnTakes(b, s, -1));
    PushPawnTakes(b, s, 1, ml);
    CapAppend(old(ml.View()), PawnPushes(b, s) + PawnTakes(b, s, -1), PawnTakes(b, s, 1));
  }

  method PushPawnPushes(b: Position, s: nat, ml: MoveList)
    requires Shape(b) && s < 64 && ml.Valid()
    modifies ml, ml.moves
    ensures ml.Valid() && ml.View() == Cap(old(ml.View()) + PawnPushes(b, s))
  {
    ghost var before := ml.View();
    assert before + [] == before;
    var f, r, nr := FileOf(s), RankOf(s), RankOf(s) + PawnDir(b.side);
    if OnBoard(f, nr) && b.piece[Sq(f, nr)] == EMPTY {
      if nr == PromoRank(b.side) {
        PushPromotions(s, Sq(f, nr), 8, ml);
      } else {
        ml.Push(Move(s, Sq(f, nr), 0));
        if r == StartRank(b.side) {
          var to2 := Sq(f, r + 2 * PawnDir(b.side));
          if b.piece[to2] == EMPTY {
            ml.Push(Move(s, to2, DOUBLE));
            CapAppend(before, [Move(s, Sq(f, nr), 0)], [Move(s, to2, DOUBLE)]);
          }
        }
      }
    }
  }

  method PushPawnTakes(b: Position, s: nat, df: int, ml: MoveList)
    requires Shape(b) && s < 64 && ml.Valid()
    modifies ml, ml.moves
    ensures ml.Valid() && ml.View() == Cap(old(ml.View()) + PawnTakes(b, s, df))
  {
    ghost var before := ml.View();
    assert before + [] == before;
    var nf, nr := FileOf(s) + df, RankOf(s) + PawnDir(b.side);
    if OnBoard(nf, nr) {
      var to := Sq(nf, nr);
      var target := b.piece[to];
      ghost var takes: seq<Move> := [];
      if target != EMPTY && Color(target) != b.side {
        if nr == PromoRank(b.side) {
          PushPromotions(s, to, 12, ml);
          takes := Promotions(s, to, 12);
        } else {
          ml.Push(Move(s, to, CAPTURE));
          takes := [Move(s, to, CAPTURE)];
        }
      }
      assert ml.View() == Cap(before + takes);
      if b.ep >= 0 && nf == b.ep && nr == EpRank(b.side) {
        ml.Push(Move(s, to, EP));
        CapAppend(before, takes, [Move(s, to, EP)]);
        assert PawnTakes(b, s, df) == takes + [Move(s, to, EP)];
      } else {
        assert PawnTakes(b, s, df) == takes;
      }
    }
  }

  method CastleShort(b: Position, s: nat, k: nat) returns (ok: bool)
    requires Shape(b) && k + 3 < 64
    ensures ok == MayCastleShort(b, s, k)
  {
    ok := s == k && b.piece[k + 1] == EMPTY && b.piece[k + 2] == EMPTY;
    if ok { var hit := SqAttacked(b, k, Opp(b.side)); ok := !hit; }
    if ok { var hit := SqAttacked(b, k + 1, Opp(b.side)); ok := !hit; }
    if ok { var hit := SqAttacked(b, k + 2, Opp(b.side)); ok := !hit; }
  }

  method CastleLong(b: Position, s: nat, k: nat) returns (ok: bool)
    requires Shape(b) && 4 <= k < 64
    ensures ok == MayCastleLong(b, s, k)
  {
    ok := s == k && b.piece[k - 1] == EMPTY && b.piece[k - 2] == EMPTY && b.piece[k - 3] == EMPTY;
    if ok { var hit := SqAttacked(b, k, Opp(b.side)); ok := !hit; }
    if ok { var hit := SqAttacked(b, k - 1, Opp(b.side)); ok := !hit; }
    if ok { var hit := SqAttacked(b, k - 2, Opp(b.side)); ok := !hit; }
  }

  method GenCastleMoves(b: Position, s: nat, ml: MoveList)
    requires Shape(b) && ml.Valid()
    modifies ml, ml.moves
    ensures ml.Valid() && ml.View() == Cap(old(ml.View()) + CastleMoves(b, s))
  {
    ghost var before := ml.View();
    assert before + [] == before;
    var k := if b.side == WHITE then 4 else 60;
    var short := if b.side == WHITE then b.castle.wk else b.castle.bk;
    if short { short := CastleShort(b, s, k); }
    ghost var ms: seq<Move> := if short then [Move(k, k + 2, KS_CASTLE)] else [];
    if short { ml.Push(Move(k, k + 2, KS_CASTLE)); }
    var long := if b.side == WHITE then b.castle.wq else b.castle.bq;
    if long { long := CastleLong(b, s, k); }
    if long {
      ml.Push(Move(k, k - 2, QS_CASTLE));
      CapAppend(before, ms, [Move(k, k - 2, QS_CASTLE)]);
    }
    assert CastleMoves(b, s) == ms + if long then [Move(k, k - 2, QS_CASTLE)] else [];
  }

  method GenPieceMoves(b: Position, s: nat, ml: MoveList)
    requires Shape(b) && s < 64 && ml.Valid()
    modifies ml, ml.moves
    ensures ml.Valid() && ml.View() == Cap(old(ml.View()) + PieceMoves(b, s))
  {
    assert ml.View() + [] == ml.View();
    ghost var before := ml.View();
    var p := b.piece[s];
    if p == EMPTY || Color(p) != b.side { return; }
    match Kind(p)
    case 1 => GenPawnMoves(b, s, ml);
    case 2 => GenStepMoves(b.piece, s, b.side, KNIGHT_DIRS, ml);
    case 3 => GenSlideMoves(b.piece, s, b.side, BISHOP_DIRS, ml);
    case 4 => GenSlideMoves(b.piece, s, b.side, ROOK_DIRS, ml);
    case 5 =>
      GenSlideMoves(b.piece, s, b.side, BISHOP_DIRS, ml);
      GenSlideMoves(b.piece, s, b.side, ROOK_DIRS, ml);
      CapAppend(before, SlideMoves(b.piece, b.side, s, BISHOP_DIRS), SlideMoves(b.piece, b.side, s, ROOK_DIRS));
    case 6 =>
      GenStepMoves(b.piece, s, b.side, KING_DIRS, ml);
      GenCastleMoves(b, s, ml);
      CapAppend(before, StepMoves(b.piece, b.side, s, KING_DIRS), CastleMoves(b, s));
    case _ =>
  }

  lemma CapMovesBelow(b: Position, s: nat)
    requires Shape(b) && s < 64
    ensures Cap(Cap(MovesBelow(b, s)) + PieceMoves(b, s)) == Cap(MovesBelow(b, s + 1))
  {
    CapAppend([], MovesBelow(b, s), PieceMoves(b, s));
    assert [] + MovesBelow(b, s) == MovesBelow(b, s);
    assert [] + (MovesBelow(b, s) + PieceMoves(b, s)) == MovesBelow(b, s + 1);
  }

  method GenerateMoves(b: Position) returns (ml: MoveList)
    requires Shape(b)
    ensures fresh(ml) && fresh(ml.moves) && ml.Valid() && ml.View() == GenMoves(b)
  {
    ml := new MoveList();
    for s := 0 to 64
      invariant fresh(ml) && fresh(ml.moves) && ml.Valid() && ml.View() == Cap(MovesBelow(b, s))
    {
      GenPieceMoves(b, s, ml);
      CapMovesBelow(b, s);
    }
  }
}
