/**
 The game tree.  `Negamax` and `QValue` are plain minimax over the generated
 moves, without pruning; what they make of forced mates is proved here.
 */
module ChessTree {
  import opened ChessBoard
  import opened ChessMoves
  import opened ChessLaws
  import opened ChessRules
  import opened ChessEval

  const MATE := 29000

  function Max(x: int, y: int): int { if x < y then y else x }

  // ---- the unpruned game tree ------------------------------------------------

  /** The board after a generated move. */
  function Next(b: Position, m: Move): (b': Position)
    requires Inv(b) && m in GenMoves(b)
    ensures Playable(b, m) && b' == Make(b, m) && Inv(b')
    ensures Count(b'.piece, NonEmpty) == Count(b.piece, NonEmpty) - B2N(IsCapture(m))
  {
    GenMovesFit(b, m);
    MakeKeepsInv(b, m);
    CaptureShrinks(b, m);
    Make(b, m)
  }

  function KeepLegal(b: Position, n: nat): seq<Move>
    requires Inv(b) && n <= |GenMoves(b)|
  {
    if n == 0 then [] else
      var m := GenMoves(b)[n - 1];
      assert Next(b, m) == Make(b, m);
      KeepLegal(b, n - 1) + (if Legal(b, m) then [m] else [])
  }

  /** gen_legal_moves. */
  function LegalMoves(b: Position): seq<Move>
    requires Inv(b)
  {
    KeepLegal(b, |GenMoves(b)|)
  }

  lemma {:induction false} KeepLegalMembers(b: Position, n: nat, m: Move)
    requires Inv(b) && n <= |GenMoves(b)|
    ensures m in KeepLegal(b, n) <==> m in GenMoves(b)[..n] && Playable(b, m) && Legal(b, m)
    ensures |KeepLegal(b, n)| <= n
  {
    hide Legal, GenMoves;
    if n > 0 {
      KeepLegalMembers(b, n - 1, m);
      assert Playable(b, GenMoves(b)[n - 1]) by { var b' := Next(b, GenMoves(b)[n - 1]); }
      assert GenMoves(b)[..n] == GenMoves(b)[..n - 1] + [GenMoves(b)[n - 1]];
    }
  }

  lemma LegalMembers(b: Position, m: Move)
    requires Inv(b)
    ensures m in LegalMoves(b) <==> m in GenMoves(b) && Playable(b, m) && Legal(b, m)
  {
    hide Legal, GenMoves;
    KeepLegalMembers(b, |GenMoves(b)|, m);
    assert GenMoves(b)[..|GenMoves(b)|] == GenMoves(b);
  }

  /** No piece of the side to move bears on the other side's king. */
  ghost predicate OtherKingSafe(b: Position)
    requires Shape(b)
  {
    forall s :: !Threat(b.piece, s, KingOf(b, Opp(b.side)), b.side)
  }

  lemma KingSafeIff(b: Position)
    requires Inv(b)
    ensures InCheck(b, Opp(b.side)) <==> !OtherKingSafe(b)
  {
    hide Attacked, Threat;
    assert Codes(b.piece);
    AttackedIff(b.piece, KingOf(b, Opp(b.side)), b.side);
  }

  /** The legal moves are those the laws allow and that leave the own king on a square nothing bears on. */
  lemma LegalIffLawful(b: Position, m: Move)
    requires Inv(b) && |MovesBelow(b, 64)| <= MAX_MOVES
    ensures m in LegalMoves(b) <==> Law(b, m) && Playable(b, m) && OtherKingSafe(Make(b, m))
  {
    hide Law, MovesBelow, GenMoves, LegalMoves, InCheck, OtherKingSafe, Make;
    LegalMembers(b, m);
    MovesAreLawful(b, m);
    if m in GenMoves(b) { KingSafeIff(Next(b, m)); }
  }

  /** The moves quiescence searches. */
  predicate LegalTake(b: Position, m: Move)
    requires Inv(b) && m in GenMoves(b)
  {
    IsCapture(m) && !InCheck(Next(b, m), b.side)
  }

  function TakeValue(b: Position, m: Move): int
    requires Inv(b) && m in GenMoves(b) && IsCapture(m)
    decreases Count(b.piece, NonEmpty), 0, 0
  {
    -QValue(Next(b, m))
  }

  /** The best capture sequence, or standing pat: captures among the first n moves. */
  function QBest(b: Position, n: nat): int
    requires Inv(b) && n <= |GenMoves(b)|
    decreases Count(b.piece, NonEmpty), 0, n + 1
  {
    if n == 0 then Evaluation(b)
    else if LegalTake(b, GenMoves(b)[n - 1]) then Max(QBest(b, n - 1), TakeValue(b, GenMoves(b)[n - 1]))
    else QBest(b, n - 1)
  }

  function QValue(b: Position): int
    requires Inv(b)
    decreases Count(b.piece, NonEmpty), 1, 0
  {
    QBest(b, |GenMoves(b)|)
  }

  ghost predicate Generated(b: Position, ms: seq<Move>)
    requires Shape(b)
  {
    forall i :: 0 <= i < |ms| ==> ms[i] in GenMoves(b)
  }

  /** Negamax value: mate and stalemate scored at the node, quiescence at depth 0. */
  function Negamax(b: Position, depth: int, ply: int): int
    requires Inv(b)
    decreases if depth > 0 then depth else 0, 1, 0
  {
    if depth <= 0 then QValue(b) else
      var ms := LegalMoves(b);
      LegalAreGenerated(b);
      if ms == [] then (if InCheck(b, b.side) then -(MATE - ply) else 0)
      else Best(b, ms, depth, ply)
  }

  /** The value of the move m played from b. */
  function MoveValue(b: Position, m: Move, depth: int, ply: int): int
    requires Inv(b) && m in GenMoves(b) && depth > 0
    decreases depth, 0, 0
  {
    -Negamax(Next(b, m), depth - 1, ply + 1)
  }

  function Best(b: Position, ms: seq<Move>, depth: int, ply: int): int
    requires Inv(b) && ms != [] && Generated(b, ms) && depth > 0
    decreases depth, 0, |ms|
  {
    var k := |ms| - 1;
    var v := MoveValue(b, ms[k], depth, ply);
    if k == 0 then v else Max(Best(b, ms[..k], depth, ply), v)
  }

  lemma LegalAreGenerated(b: Position)
    requires Inv(b)
    ensures Generated(b, LegalMoves(b)) && |LegalMoves(b)| <= |GenMoves(b)|
  {
    var ms := LegalMoves(b);
    KeepLegalMembers(b, |GenMoves(b)|, NO_MOVE);
    forall i | 0 <= i < |ms| ensures ms[i] in GenMoves(b) {
      KeepLegalMembers(b, |GenMoves(b)|, ms[i]);
    }
  }

  lemma {:induction false} BestIsUpperBound(b: Position, ms: seq<Move>, depth: int, ply: int, i: nat)
    requires Inv(b) && Generated(b, ms) && depth > 0 && i < |ms|
    ensures MoveValue(b, ms[i], depth, ply) <= Best(b, ms, depth, ply)
    decreases |ms|
  {
    if i < |ms| - 1 { BestIsUpperBound(b, ms[..|ms| - 1], depth, ply, i); }
  }

  lemma {:induction false} BestIsAttained(b: Position, ms: seq<Move>, depth: int, ply: int) returns (i: nat)
    requires Inv(b) && Generated(b, ms) && depth > 0 && ms != []
    ensures i < |ms| && MoveValue(b, ms[i], depth, ply) == Best(b, ms, depth, ply)
    decreases |ms|
  {
    i := |ms| - 1;
    if MoveValue(b, ms[i], depth, ply) != Best(b, ms, depth, ply) {
      i := BestIsAttained(b, ms[..i], depth, ply);
    }
  }

  lemma BestOfSubset(b: Position, ms: seq<Move>, ms': seq<Move>, depth: int, ply: int)
    requires Inv(b) && Generated(b, ms) && Generated(b, ms') && depth > 0 && ms != [] && ms' != []
    requires forall m :: m in ms ==> m in ms'
    ensures Best(b, ms, depth, ply) <= Best(b, ms', depth, ply)
  {
    var i := BestIsAttained(b, ms, depth, ply);
    assert ms[i] in ms';
    var j :| 0 <= j < |ms'| && ms'[j] == ms[i];
    BestIsUpperBound(b, ms', depth, ply, j);
  }

  lemma {:induction false} QBestGrows(b: Position, i: nat, n: nat)
    requires Inv(b) && i <= n <= |GenMoves(b)|
    ensures QBest(b, i) <= QBest(b, n)
    decreases n
  {
    if i < n { QBestGrows(b, i, n - 1); }
  }

  lemma QBestStep(b: Position, i: nat)
    requires Inv(b) && i < |GenMoves(b)|
    ensures QBest(b, i + 1) == if LegalTake(b, GenMoves(b)[i]) then Max(QBest(b, i), TakeValue(b, GenMoves(b)[i]))
            else QBest(b, i)
    ensures QBest(b, i + 1) <= QValue(b)
  {
    QBestGrows(b, i + 1, |GenMoves(b)|);
  }

  /** Quiescence: standing pat and every legal capture are lower bounds, and one of them is attained. */
  lemma QValueIsBest(b: Position, m: Move)
    requires Inv(b) && m in GenMoves(b)
    ensures QValue(b) >= Evaluation(b) && (LegalTake(b, m) ==> QValue(b) >= -QValue(Next(b, m)))
  {
    QBestGrows(b, 0, |GenMoves(b)|);
    var i :| 0 <= i < |GenMoves(b)| && GenMoves(b)[i] == m;
    hide GenMoves, LegalTake;
    QBestStep(b, i);
  }

  ghost predicate WorthTaking(b: Position, m: Move, v: int)
    requires Inv(b) && m in GenMoves(b)
  {
    LegalTake(b, m) && v == -QValue(Next(b, m))
  }

  lemma {:induction false} QBestAttained(b: Position, n: nat)
    requires Inv(b) && n <= |GenMoves(b)|
    ensures QBest(b, n) == Evaluation(b) || exists m :: m in GenMoves(b) && WorthTaking(b, m, QBest(b, n))
  {
    if n > 0 {
      QBestAttained(b, n - 1);
      var m := GenMoves(b)[n - 1];
      if LegalTake(b, m) && QBest(b, n) == TakeValue(b, m) {
        assert WorthTaking(b, m, QBest(b, n));
      }
    }
  }

  // ---- values --------------------------------------------------------------------

  lemma {:induction false} QBestBounds(b: Position, n: nat)
    requires KingsSafe(b) && n <= |GenMoves(b)|
    ensures -EVAL_BOUND <= QBest(b, n) <= EVAL_BOUND
    decreases Count(b.piece, NonEmpty), n
  {
    hide Attacked, KingsAt;
    if n == 0 {
      EvaluationBounds(b);
    } else {
      QBestBounds(b, n - 1);
      var m := GenMoves(b)[n - 1];
      if LegalTake(b, m) {
        LegalKeepsKings(b, m);
        QBestBounds(Next(b, m), |GenMoves(Next(b, m))|);
        assert TakeValue(b, m) == -QValue(Next(b, m));
      }
    }
  }

  lemma NegamaxChild(b: Position, depth: int, ply: int) returns (m: Move)
    requires KingsSafe(b) && Inv(b) && depth > 0 && LegalMoves(b) != []
    ensures m in GenMoves(b) && KingsSafe(Next(b, m))
    ensures Negamax(b, depth, ply) == -Negamax(Next(b, m), depth - 1, ply + 1)
  {
    LegalAreGenerated(b);
    var ms := LegalMoves(b);
    var i := BestIsAttained(b, ms, depth, ply);
    m := ms[i];
    assert Negamax(b, depth, ply) == MoveValue(b, m, depth, ply);
    KeepLegalMembers(b, |GenMoves(b)|, m);
    hide Negamax, Attacked, KingsAt;
    assert Playable(b, m) && Legal(b, m);
    LegalKeepsKings(b, m);
  }

  lemma NegamaxLeaf(b: Position, depth: int, ply: int)
    requires KingsSafe(b) && (depth <= 0 || LegalMoves(b) == []) && 0 <= ply <= 2 * MATE
    ensures -MATE <= Negamax(b, depth, ply) <= MATE
  {
    QBestBounds(b, |GenMoves(b)|);
    hide KingsSafe, Inv, GenMoves, QBest, InCheck;
  }

  /** On a board of a legal game every value of the search lies strictly inside
      (-INF, INF), as long as mate scores cannot run past the window. */
  lemma {:induction false} NegamaxBounds(b: Position, depth: int, ply: int)
    requires KingsSafe(b) && Inv(b) && 0 <= ply && ply + (if depth > 0 then depth else 0) <= 2 * MATE
    ensures -MATE <= Negamax(b, depth, ply) <= MATE
    decreases if depth > 0 then depth else 0
  {
    hide Negamax, KingsSafe, LegalMoves, GenMoves;
    if depth <= 0 || LegalMoves(b) == [] {
      NegamaxLeaf(b, depth, ply);
    } else {
      var m := NegamaxChild(b, depth, ply);
      NegamaxBounds(Next(b, m), depth - 1, ply + 1);
    }
  }

  /** m is a legal move of b whose negamax value at this depth is the value of b. */
  predicate BestMove(b: Position, depth: int, m: Move)
    requires Inv(b) && depth > 0
  {
    m in LegalMoves(b) && m in GenMoves(b) && MoveValue(b, m, depth, 0) == Negamax(b, depth, 0)
  }

  // ---- forced mates ----------------------------------------------------------------

  predicate Mated(b: Position)
    requires Inv(b)
  {
    LegalMoves(b) == [] && InCheck(b, b.side)
  }

  predicate Stalemated(b: Position)
    requires Inv(b)
  {
    LegalMoves(b) == [] && !InCheck(b, b.side)
  }

  /** The side to move can force mate within n moves of either side. */
  ghost predicate WinsIn(b: Position, n: int)
    requires Inv(b)
    decreases if n > 0 then n else 0
  {
    LegalAreGenerated(b);
    n > 0 && exists i :: 0 <= i < |LegalMoves(b)| && LosesIn(Next(b, LegalMoves(b)[i]), n - 1)
  }

  /** The side to move is mated, or will be within n moves whatever it plays. */
  ghost predicate LosesIn(b: Position, n: int)
    requires Inv(b)
    decreases if n > 0 then n else 0
  {
    LegalAreGenerated(b);
    || (n >= 0 && Mated(b))
    || (n > 0 && LegalMoves(b) != [] &&
        forall i :: 0 <= i < |LegalMoves(b)| ==> WinsIn(Next(b, LegalMoves(b)[i]), n - 1))
  }

  /** Depths up to which no evaluation reaches a mate score. */
  const MATE_DEPTH := 13800     // MATE - EVAL_BOUND

  /** The value of a position is as high as v exactly if some move's is. */
  lemma ReachedByMove(b: Position, depth: int, ply: int, v: int)
    requires Inv(b) && depth > 0 && LegalMoves(b) != []
    ensures Generated(b, LegalMoves(b))
    ensures Negamax(b, depth, ply) >= v <==>
            exists i :: 0 <= i < |LegalMoves(b)| && MoveValue(b, LegalMoves(b)[i], depth, ply) >= v
  {
    var ms := LegalMoves(b);
    LegalAreGenerated(b);
    assert Negamax(b, depth, ply) == Best(b, ms, depth, ply);
    hide Negamax, MoveValue, Best, LegalMoves, GenMoves;
    if Best(b, ms, depth, ply) >= v {
      var i := BestIsAttained(b, ms, depth, ply);
    }
    if i :| 0 <= i < |ms| && MoveValue(b, ms[i], depth, ply) >= v {
      BestIsUpperBound(b, ms, depth, ply, i);
    }
  }

  lemma LegalChild(b: Position, m: Move)
    requires KingsSafe(b) && Inv(b) && m in LegalMoves(b)
    ensures m in GenMoves(b) && KingsSafe(Next(b, m))
  {
    KeepLegalMembers(b, |GenMoves(b)|, m);
    hide Attacked, KingsAt;
    LegalKeepsKings(b, m);
  }

  /** A finished game, or the horizon. */
  lemma MateIffLeaf(b: Position, depth: nat, ply: nat, n: int)
    requires KingsSafe(b) && Inv(b) && ply + depth <= MATE_DEPTH && n < depth && (depth == 0 || LegalMoves(b) == [])
    ensures Negamax(b, depth, ply) >= MATE - ply - n <==> WinsIn(b, n)
    ensures Negamax(b, depth, ply) <= -(MATE - ply - n) <==> LosesIn(b, n)
  {
    QBestBounds(b, |GenMoves(b)|);
    hide KingsSafe, GenMoves, QBest, InCheck;
  }

  /** A player with moves wins by one of them and loses by all of them. */
  lemma HasMoves(b: Position, n: int)
    requires Inv(b) && LegalMoves(b) != []
    ensures Generated(b, LegalMoves(b))
    ensures WinsIn(b, n) <==> exists i :: 0 <= i < |LegalMoves(b)| && LosesIn(Next(b, LegalMoves(b)[i]), n - 1)
    ensures LosesIn(b, n) <==> forall i :: 0 <= i < |LegalMoves(b)| ==> WinsIn(Next(b, LegalMoves(b)[i]), n - 1)
  {
    assert !Mated(b);
    hide LegalMoves, GenMoves, Mated, Inv;
    LegalAreGenerated(b);
    if n <= 0 {
      NeverWithin(Next(b, LegalMoves(b)[0]), n - 1);
      forall i | 0 <= i < |LegalMoves(b)| ensures !LosesIn(Next(b, LegalMoves(b)[i]), n - 1) {
        NeverWithin(Next(b, LegalMoves(b)[i]), n - 1);
      }
    }
  }

  lemma NeverWithin(b: Position, n: int)
    requires Inv(b) && n < 0
    ensures !WinsIn(b, n) && !LosesIn(b, n)
  {
    hide LegalMoves, GenMoves, Mated, Inv;
  }

  /** m counts as winning or losing for n more moves exactly as the position after it does for one less. */
  ghost predicate ScoredRight(b: Position, m: Move, depth: int, ply: int, n: int)
    requires Inv(b) && m in GenMoves(b) && depth > 0
  {
    && (MoveValue(b, m, depth, ply) >= MATE - ply - n <==> LosesIn(Next(b, m), n - 1))
    && (MoveValue(b, m, depth, ply) <= -(MATE - ply - n) <==> WinsIn(Next(b, m), n - 1))
  }

  lemma MateIffNode(b: Position, depth: nat, ply: nat, n: int)
    requires Inv(b) && depth > 0 && LegalMoves(b) != [] && Generated(b, LegalMoves(b))
    requires forall i :: 0 <= i < |LegalMoves(b)| ==> ScoredRight(b, LegalMoves(b)[i], depth, ply, n)
    ensures Negamax(b, depth, ply) >= MATE - ply - n <==> WinsIn(b, n)
    ensures Negamax(b, depth, ply) <= -(MATE - ply - n) <==> LosesIn(b, n)
  {
    hide Negamax, LegalMoves, GenMoves, MoveValue, WinsIn, LosesIn, Inv;
    HasMoves(b, n);
    ReachedByMove(b, depth, ply, MATE - ply - n);
    ReachedByMove(b, depth, ply, -(MATE - ply - n) + 1);
  }

  /** The search sees a forced mate exactly if there is one within its depth, and scores it by its
      distance: the value reaches MATE - ply - n exactly if mate can be forced within n moves. */
  lemma {:induction false} MateIff(b: Position, depth: nat, ply: nat, n: int)
    requires KingsSafe(b) && Inv(b) && ply + depth <= MATE_DEPTH && n < depth
    ensures Negamax(b, depth, ply) >= MATE - ply - n <==> WinsIn(b, n)
    ensures Negamax(b, depth, ply) <= -(MATE - ply - n) <==> LosesIn(b, n)
    decreases depth
  {
    hide Negamax, KingsSafe, LegalMoves, GenMoves, WinsIn, LosesIn, Inv;
    if depth == 0 || LegalMoves(b) == [] {
      MateIffLeaf(b, depth, ply, n);
    } else {
      var ms := LegalMoves(b);
      LegalAreGenerated(b);
      forall i | 0 <= i < |ms| ensures ScoredRight(b, ms[i], depth, ply, n) {
        LegalChild(b, ms[i]);
        MateIff(Next(b, ms[i]), depth - 1, ply + 1, n - 1);
      }
      MateIffNode(b, depth, ply, n);
    }
  }

  /** A best move mates as fast as can be forced within the depth, and never allows a mate within the
      depth that could be avoided. */
  lemma BestMoveMates(b: Position, depth: int, m: Move, n: int)
    requires KingsSafe(b) && Inv(b) && 0 < depth <= MATE_DEPTH && n < depth && BestMove(b, depth, m)
    ensures WinsIn(b, n) ==> LosesIn(Next(b, m), n - 1)
    ensures WinsIn(Next(b, m), n - 1) ==> LosesIn(b, n)
  {
    hide WinsIn, LosesIn, Negamax, LegalMoves, GenMoves, KingsSafe, Inv;
    MateIff(b, depth, 0, n);
    LegalChild(b, m);
    MateIff(Next(b, m), depth - 1, 1, n - 1);
    assert MoveValue(b, m, depth, 0) == -Negamax(Next(b, m), depth - 1, 1);
  }

  /** A move that leaves the opponent stalemated is worth nothing, so it is best only if no move is
      worth anything. */
  lemma StalemateIsWorthNothing(b: Position, depth: int, m: Move, m': Move)
    requires Inv(b) && depth >= 2 && m in GenMoves(b) && Stalemated(Next(b, m))
    requires m' in LegalMoves(b) && m' in GenMoves(b)
    ensures MoveValue(b, m, depth, 0) == 0
    ensures BestMove(b, depth, m) ==> MoveValue(b, m', depth, 0) <= 0
  {
    assert MoveValue(b, m, depth, 0) == -Negamax(Next(b, m), depth - 1, 1);
    var i :| 0 <= i < |LegalMoves(b)| && LegalMoves(b)[i] == m';
    LegalAreGenerated(b);
    BestIsUpperBound(b, LegalMoves(b), depth, 0, i);
    hide LegalMoves, GenMoves, InCheck;
  }
}
