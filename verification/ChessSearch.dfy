/**
 The search: the engine's pruned `AlphaBeta` and `Quiesce`, on a board changed
 in place, against the plain minimax of `ChessTree`.
 */
module ChessSearch {
  import opened ChessBoard
  import opened ChessMoves
  import opened ChessRules
  import opened ChessEngine
  import opened ChessEval
  import opened ChessTree

  const INF := 30000

  function Clamp(v: int, lo: int, hi: int): int { if v <= lo then lo else if v >= hi then hi else v }

  // ---- move ordering -----------------------------------------------------------

  predicate Tactical(m: Move) { IsCapture(m) || IsPromo(m) }

  function Select(ms: seq<Move>, tactical: bool): seq<Move>
  {
    if ms == [] then [] else
      var k := |ms| - 1;
      Select(ms[..k], tactical) + (if Tactical(ms[k]) == tactical then [ms[k]] else [])
  }

  /** Captures and promotions first, then the rest, each in generation order. */
  function Ordered(ms: seq<Move>): seq<Move> { Select(ms, true) + Select(ms, false) }

  lemma {:induction false} OrderedPermutes(ms: seq<Move>)
    ensures multiset(Ordered(ms)) == multiset(ms)
    ensures forall m :: m in Ordered(ms) <==> m in ms
    ensures |Ordered(ms)| == |ms|
  {
    if ms != [] {
      var k := |ms| - 1;
      OrderedPermutes(ms[..k]);
      assert ms == ms[..k] + [ms[k]];
      var t, q := Select(ms[..k], true), Select(ms[..k], false);
      assert multiset(t + q) == multiset(t) + multiset(q);
      assert multiset(Ordered(ms)) == multiset(t) + multiset(q) + multiset{ms[k]};
    }
    forall m ensures m in Ordered(ms) <==> m in ms {
      assert m in Ordered(ms) <==> m in multiset(Ordered(ms));
      assert m in ms <==> m in multiset(ms);
    }
    assert |multiset(Ordered(ms))| == |multiset(ms)|;
  }

  lemma SelectNext(ms: seq<Move>, i: nat, tactical: bool)
    requires i < |ms|
    ensures Select(ms[..i + 1], tactical) ==
            Select(ms[..i], tactical) + if Tactical(ms[i]) == tactical then [ms[i]] else []
  {
    assert ms[..i + 1][..i] == ms[..i];
  }

  lemma {:induction false} SelectedAre(ms: seq<Move>, tactical: bool)
    ensures forall i :: 0 <= i < |Select(ms, tactical)| ==> Tactical(Select(ms, tactical)[i]) == tactical
  {
    if ms != [] { SelectedAre(ms[..|ms| - 1], tactical); }
  }

  /** Captures and promotions come before all other moves. */
  lemma TacticalFirst(ms: seq<Move>, i: nat, j: nat)
    requires i < j < |Ordered(ms)| && Tactical(Ordered(ms)[j])
    ensures Tactical(Ordered(ms)[i])
  {
    SelectedAre(ms, true);
    SelectedAre(ms, false);
    hide Select, Tactical;
  }

  /** Within each of the two groups moves stay in generation order. */
  lemma {:induction false} SelectInOrder(ms: seq<Move>, k: nat, tactical: bool)
    requires k <= |ms|
    ensures Select(ms[..k], tactical) <= Select(ms, tactical)
    decreases |ms|
  {
    if k < |ms| {
      SelectInOrder(ms[..|ms| - 1], k, tactical);
      assert ms[..|ms| - 1][..k] == ms[..k];
    } else {
      assert ms[..k] == ms;
    }
  }

  lemma SelectLengths(ms: seq<Move>)
    ensures |Select(ms, true)| + |Select(ms, false)| == |ms|
  {
    OrderedPermutes(ms);
  }

  lemma {:induction false} SelectGrows(ms: seq<Move>, i: nat, tactical: bool)
    requires i < |ms|
    ensures |Select(ms[..i + 1], tactical)| <= |Select(ms, tactical)|
    decreases |ms|
  {
    if i + 1 < |ms| {
      var k := |ms| - 1;
      assert ms[..k][..i + 1] == ms[..i + 1];
      SelectGrows(ms[..k], i, tactical);
    } else {
      assert ms[..i + 1] == ms;
    }
  }

  /** One of the two passes: the chosen moves go behind the start moves already there. */
  method Collect(ms: seq<Move>, buf: array<Move>, start: nat, tactical: bool) returns (oc: nat)
    requires start + |Select(ms, tactical)| <= buf.Length
    modifies buf
    ensures oc <= buf.Length && buf[..oc] == old(buf[..start]) + Select(ms, tactical)
  {
    assert Select(ms[..0], tactical) == [];
    hide Select;
    ghost var before := buf[..start];
    oc := start;
    for i := 0 to |ms|
      invariant oc == start + |Select(ms[..i], tactical)| <= buf.Length
      invariant buf[..oc] == before + Select(ms[..i], tactical)
    {
      SelectNext(ms, i, tactical);
      SelectGrows(ms, i, tactical);
      if (IsCapture(ms[i]) || IsPromo(ms[i])) == tactical { buf[oc] := ms[i]; oc := oc + 1; }
    }
    assert ms[..|ms|] == ms;
  }

  method OrderMoves(ms: seq<Move>) returns (ordered: seq<Move>)
    requires |ms| <= MAX_MOVES
    ensures ordered == Ordered(ms)
  {
    SelectLengths(ms);
    var buf := new Move[MAX_MOVES](_ => NO_MOVE);
    var oc := Collect(ms, buf, 0, true);
    oc := Collect(ms, buf, oc, false);
    ordered := buf[..oc];
  }

  // ---- the pruned searches ---------------------------------------------------------

  /** make_move on a generated move. */
  method Advance(b: Board, m: Move) returns (undo: Undo)
    requires Inv(b.State()) && m in GenMoves(b.State())
    modifies b, b.piece
    ensures b.State() == Next(old(b.State()), m)
    ensures undo == UndoFor(old(b.State()), m)
  {
    var after := Next(b.State(), m);
    undo := b.MakeMove(m);
  }

  /** unmake_move straight after make_move. */
  method Retract(b: Board, m: Move, undo: Undo, ghost before: Position)
    requires Inv(before) && m in GenMoves(before)
    requires b.State() == Next(before, m) && undo == UndoFor(before, m)
    modifies b, b.piece
    ensures b.State() == before
  {
    GenMovesFit(before, m);
    UnmakeRestores(before, m);
    b.UnmakeMove(m, undo);
  }

  /** Make m, ask whether the mover is left in check, and take m back. */
  method TryMove(bc: Board, m: Move) returns (safe: bool)
    requires Inv(bc.State()) && m in GenMoves(bc.State())
    modifies bc, bc.piece
    ensures bc.State() == old(bc.State())
    ensures Playable(bc.State(), m) && safe == Legal(bc.State(), m)
  {
    ghost var before := bc.State();
    var undo := Advance(bc, m);
    var after := bc.State();
    var check := SqAttacked(after, KingOf(after, Opp(after.side)), after.side);
    safe := !check;
    Retract(bc, m, undo, before);
  }

  lemma KeepLegalZero(b: Position)
    requires Inv(b)
    ensures Shape(b) && KeepLegal(b, 0) == [] && LegalMoves(b) == KeepLegal(b, |GenMoves(b)|)
  {}

  lemma KeepLegalStep(b: Position, i: nat)
    requires Inv(b) && i < |GenMoves(b)|
    ensures var m := GenMoves(b)[i];
            Playable(b, m) && KeepLegal(b, i + 1) == Cap(KeepLegal(b, i) + (if Legal(b, m) then [m] else []))
    ensures Cap(KeepLegal(b, i)) == KeepLegal(b, i)
  {
    var m := GenMoves(b)[i];
    assert Next(b, m) == Make(b, m);
    hide Legal;
    KeepLegalMembers(b, i, m);
  }

  method GenLegalMoves(b: Position) returns (legal: MoveList)
    requires Inv(b)
    ensures fresh(legal) && fresh(legal.moves) && legal.Valid() && legal.View() == LegalMoves(b)
  {
    hide GenMoves, Legal, KeepLegal, Inv;
    KeepLegalZero(b);
    var pseudo := GenerateMoves(b);
    legal := new MoveList();
    var bc := new Board.Copy(b);
    for i := 0 to pseudo.count
      invariant fresh(legal) && fresh(legal.moves) && legal.Valid()
      invariant pseudo.Valid() && pseudo.View() == GenMoves(b)
      invariant fresh(bc) && fresh(bc.piece) && bc.State() == b
      invariant legal.View() == KeepLegal(b, i)
    {
      var m := pseudo.moves[i];
      assert m == GenMoves(b)[i];
      KeepLegalStep(b, i);
      var safe := TryMove(bc, m);
      if safe { legal.Push(m); }
    }
  }

  /** One capture of the quiescence loop: make it, search it unless it leaves the
      mover in check, and take it back. */
  method QuiesceMove(b: Board, m: Move, alpha: int, beta: int) returns (legal: bool, score: int)
    requires Inv(b.State()) && m in GenMoves(b.State()) && IsCapture(m) && alpha < beta
    modifies b, b.piece
    ensures b.State() == old(b.State())
    ensures legal == LegalTake(b.State(), m)
    ensures legal ==> score == Clamp(TakeValue(b.State(), m), alpha, beta)
    decreases Count(b.State().piece, NonEmpty), 0
  {
    ghost var before := b.State();
    var undo := Advance(b, m);
    var after := b.State();
    var check := SqAttacked(after, KingOf(after, Opp(after.side)), after.side);
    legal, score := !check, 0;
    if legal {
      score := Quiesce(b, -beta, -alpha);
      score := -score;
    }
    Retract(b, m, undo, before);
  }

  /** The capture loop of quiesce, once standing pat has not reached beta. */
  method QuiesceTakes(b: Board, ms: seq<Move>, standPat: int, alpha0: int, beta: int) returns (score: int)
    requires Inv(b.State()) && ms == GenMoves(b.State())
    requires standPat == QBest(b.State(), 0) && standPat < beta && alpha0 < beta
    modifies b, b.piece
    ensures b.State() == old(b.State())
    ensures score == Clamp(QValue(b.State()), alpha0, beta)
    decreases Count(b.State().piece, NonEmpty), 1
  {
    hide Inv, GenMoves, InCheck, TakeValue;
    ghost var pos := b.State();
    var alpha := if standPat > alpha0 then standPat else alpha0;
    for i := 0 to |ms|
      invariant b.State() == pos
      invariant alpha == Max(alpha0, QBest(pos, i)) < beta
    {
      QBestStep(pos, i);
      if IsCapture(ms[i]) {
        var legal;
        legal, score := QuiesceMove(b, ms[i], alpha, beta);
        if legal {
          if score >= beta { return beta; }
          if score > alpha { alpha := score; }
        }
      }
    }
    score := alpha;
  }

  /** quiesce: the full capture search clamped to the window, the board left as found.
      It terminates because every move it makes takes a piece off the board. */
  method Quiesce(b: Board, alpha: int, beta: int) returns (score: int)
    requires Inv(b.State()) && alpha < beta
    modifies b, b.piece
    ensures b.State() == old(b.State())
    ensures score == Clamp(QValue(b.State()), alpha, beta)
    decreases Count(b.State().piece, NonEmpty), 2
  {
    var standPat := Evaluate(b.State());
    QBestGrows(b.State(), 0, |GenMoves(b.State())|);
    if standPat >= beta { return beta; }
    hide Evaluation, GenMoves;
    var moves := GenerateMoves(b.State());
    assert QBest(b.State(), 0) == standPat;
    score := QuiesceTakes(b, moves.View(), standPat, alpha, beta);
  }

  // ---- alpha-beta ------------------------------------------------------------------

  class SearchState {
    var bestMove: Move
    constructor ()
      ensures bestMove == NO_MOVE
    {
      bestMove := NO_MOVE;
    }
  }

  /** What alpha_beta returns: the exact value at a finished game, otherwise the
      negamax value clamped to the window. */
  function Pruned(b: Position, depth: int, ply: int, alpha: int, beta: int): int
    requires Inv(b)
  {
    var v := Negamax(b, depth, ply);
    if depth > 0 && LegalMoves(b) == [] then v else Clamp(v, alpha, beta)
  }

  /** m is the first move of ms worth v. */
  ghost predicate FirstWorth(b: Position, ms: seq<Move>, depth: int, ply: int, v: int, m: Move)
    requires Inv(b) && Generated(b, ms) && depth > 0
  {
    exists i :: 0 <= i < |ms| && m == ms[i] && MoveValue(b, ms[i], depth, ply) == v
      && forall j :: 0 <= j < i ==> MoveValue(b, ms[j], depth, ply) < v
  }

  lemma PrunedInWindow(b: Position, depth: int, ply: int, alpha: int, beta: int)
    requires Inv(b) && alpha < beta
    ensures Clamp(-Pruned(b, depth, ply, -beta, -alpha), alpha, beta) == Clamp(-Negamax(b, depth, ply), alpha, beta)
  {}

  /** best_move after a search of b at the root: set to the first best move in search
      order when the value lies inside the window, and left alone when there is none to play
      or the value is at most alpha. */
  ghost predicate RootChoice(b: Position, depth: int, alpha: int, beta: int, score: int, old': Move, best: Move)
    requires Inv(b)
  {
    if depth <= 0 || LegalMoves(b) == [] || score <= alpha then best == old'
    else score < beta ==>
      Generated(b, Ordered(LegalMoves(b))) && FirstWorth(b, Ordered(LegalMoves(b)), depth, 0, score, best)
  }

  /** One move of the alpha-beta loop. */
  method SearchMove(b: Board, m: Move, depth: int, alpha: int, beta: int, ss: SearchState, ply: int)
    returns (score: int)
    requires Inv(b.State()) && m in GenMoves(b.State()) && depth > 0 && alpha < beta && ply >= 0
    modifies b, b.piece, ss
    ensures b.State() == old(b.State()) && ss.bestMove == old(ss.bestMove)
    ensures Clamp(score, alpha, beta) == Clamp(MoveValue(b.State(), m, depth, ply), alpha, beta)
    decreases depth, 0, 0
  {
    hide Inv, GenMoves, Make, Pruned, RootChoice, Negamax;
    ghost var before := b.State();
    var undo := Advance(b, m);
    score := AlphaBeta(b, depth - 1, -beta, -alpha, ss, ply + 1);
    PrunedInWindow(b.State(), depth - 1, ply + 1, alpha, beta);
    score := -score;
    Retract(b, m, undo, before);
  }

  /** alpha after the first i moves, when none has reached beta. */
  function Running(b: Position, ms: seq<Move>, i: nat, depth: int, ply: int, alpha: int): int
    requires Inv(b) && Generated(b, ms) && depth > 0 && i <= |ms|
  {
    if i == 0 then alpha else Max(Running(b, ms, i - 1, depth, ply, alpha), MoveValue(b, ms[i - 1], depth, ply))
  }

  lemma {:induction false} RunningBounds(b: Position, ms: seq<Move>, i: nat, j: nat, depth: int, ply: int, alpha: int)
    requires Inv(b) && Generated(b, ms) && depth > 0 && j <= i <= |ms|
    ensures Running(b, ms, j, depth, ply, alpha) <= Running(b, ms, i, depth, ply, alpha)
    ensures alpha <= Running(b, ms, i, depth, ply, alpha)
    ensures j < i ==> MoveValue(b, ms[j], depth, ply) <= Running(b, ms, i, depth, ply, alpha)
    decreases i
  {
    hide Inv, GenMoves, MoveValue;
    if j < i { RunningBounds(b, ms, i - 1, j, depth, ply, alpha); }
    else if i > 0 { RunningBounds(b, ms, i - 1, 0, depth, ply, alpha); }
  }

  lemma {:induction false} RunningIsBest(b: Position, ms: seq<Move>, i: nat, depth: int, ply: int, alpha: int)
    requires Inv(b) && Generated(b, ms) && depth > 0 && 0 < i <= |ms|
    ensures Running(b, ms, i, depth, ply, alpha) == Max(alpha, Best(b, ms[..i], depth, ply))
  {
    hide Inv, GenMoves, MoveValue;
    if i > 1 {
      RunningIsBest(b, ms, i - 1, depth, ply, alpha);
      assert ms[..i][..i - 1] == ms[..i - 1];
    }
  }

  lemma FirstWorthNew(b: Position, ms: seq<Move>, i: nat, depth: int, ply: int, alpha: int, v: int)
    requires Inv(b) && Generated(b, ms) && depth > 0 && i < |ms|
    requires v == MoveValue(b, ms[i], depth, ply) && Running(b, ms, i, depth, ply, alpha) < v
    ensures FirstWorth(b, ms, depth, ply, v, ms[i])
  {
    forall j | 0 <= j < i ensures MoveValue(b, ms[j], depth, ply) < v {
      RunningBounds(b, ms, i, j, depth, ply, alpha);
    }
  }

  /** The loop of alpha_beta over the ordered moves. */
  method SearchMoves(b: Board, ms: seq<Move>, depth: int, alpha0: int, beta: int, ss: SearchState, ply: int)
    returns (score: int)
    requires Inv(b.State()) && Generated(b.State(), ms) && ms != [] && depth > 0 && alpha0 < beta && ply >= 0
    modifies b, b.piece, ss
    ensures b.State() == old(b.State())
    ensures score == Clamp(Running(b.State(), ms, |ms|, depth, ply, alpha0), alpha0, beta)
    ensures ply > 0 || score == alpha0 ==> ss.bestMove == old(ss.bestMove)
    ensures ply == 0 && alpha0 < score < beta ==> FirstWorth(b.State(), ms, depth, ply, score, ss.bestMove)
    decreases depth, 0, 1
  {
    hide Inv, GenMoves, MoveValue, Playable;
    ghost var pos := b.State();
    ghost var best0 := ss.bestMove;
    var alpha := alpha0;
    for i := 0 to |ms|
      invariant b.State() == pos
      invariant alpha0 <= alpha == Running(pos, ms, i, depth, ply, alpha0) < beta
      invariant ply > 0 || alpha == alpha0 ==> ss.bestMove == best0
      invariant ply == 0 && alpha0 < alpha ==> FirstWorth(pos, ms, depth, ply, alpha, ss.bestMove)
    {
      score := SearchMove(b, ms[i], depth, alpha, beta, ss, ply);
      if score >= beta {
        RunningBounds(pos, ms, |ms|, i + 1, depth, ply, alpha0);
        return beta;
      }
      if score > alpha {
        FirstWorthNew(pos, ms, i, depth, ply, alpha0, score);
        alpha := score;
        if ply == 0 { ss.bestMove := ms[i]; }
      }
    }
    score := alpha;
  }

  lemma OrderedBest(b: Position, depth: int, ply: int)
    requires Inv(b) && LegalMoves(b) != [] && depth > 0
    ensures Generated(b, Ordered(LegalMoves(b))) && Ordered(LegalMoves(b)) != []
    ensures Best(b, Ordered(LegalMoves(b)), depth, ply) == Negamax(b, depth, ply)
  {
    var ms := LegalMoves(b);
    LegalAreGenerated(b);
    OrderedPermutes(ms);
    forall i | 0 <= i < |Ordered(ms)| ensures Ordered(ms)[i] in GenMoves(b) {
      assert Ordered(ms)[i] in ms;
    }
    BestOfSubset(b, Ordered(ms), ms, depth, ply);
    BestOfSubset(b, ms, Ordered(ms), depth, ply);
  }

  /** alpha_beta agrees with unpruned negamax, leaves the board as found, and at the
      root records the first best move whenever the value lies inside the window. */
  method AlphaBeta(b: Board, depth: int, alpha0: int, beta: int, ss: SearchState, ply: int) returns (score: int)
    requires Inv(b.State()) && alpha0 < beta && ply >= 0
    modifies b, b.piece, ss
    ensures b.State() == old(b.State())
    ensures score == Pruned(b.State(), depth, ply, alpha0, beta)
    ensures ply > 0 ==> ss.bestMove == old(ss.bestMove)
    ensures ply == 0 ==> RootChoice(b.State(), depth, alpha0, beta, score, old(ss.bestMove), ss.bestMove)
    decreases if depth > 0 then depth else 0, 1, 0
  {
    if depth <= 0 {
      score := Quiesce(b, alpha0, beta);
      return;
    }
    var pos := b.State();
    var legal := GenLegalMoves(pos);
    if legal.count == 0 {
      var check := SqAttacked(pos, KingOf(pos, pos.side), Opp(pos.side));
      return if check then -(MATE - ply) else 0;
    }
    var ordered := OrderMoves(legal.View());
    OrderedBest(pos, depth, ply);
    RunningIsBest(pos, ordered, |ordered|, depth, ply, alpha0);
    assert ordered[..|ordered|] == ordered;
    score := SearchMoves(b, ordered, depth, alpha0, beta, ss, ply);
  }

  // ---- values and iterative deepening ---------------------------------------------

  lemma FirstWorthIsLegal(b: Position, depth: int, v: int, m: Move)
    requires Inv(b) && depth > 0 && Generated(b, Ordered(LegalMoves(b)))
    requires FirstWorth(b, Ordered(LegalMoves(b)), depth, 0, v, m)
    ensures m in LegalMoves(b) && m in GenMoves(b) && MoveValue(b, m, depth, 0) == v && m != NO_MOVE
  {
    OrderedPermutes(LegalMoves(b));
    GenMovesFit(b, m);
  }

  /** One full-window search at the root finds a best move or reports that there is none. */
  lemma RootResult(b: Position, depth: int, score: int, best: Move)
    requires KingsSafe(b) && 0 < depth <= 2 * MATE
    requires score == Pruned(b, depth, 0, -INF, INF)
    requires RootChoice(b, depth, -INF, INF, score, NO_MOVE, best)
    ensures if LegalMoves(b) == [] then best == NO_MOVE else best != NO_MOVE && BestMove(b, depth, best)
  {
    NegamaxBounds(b, depth, 0);
    hide Attacked, KingsAt, Negamax;
    if LegalMoves(b) != [] {
      FirstWorthIsLegal(b, depth, score, best);
    }
  }

  /** Some legal move mates. */
  ghost predicate CanMate(b: Position)
    requires Inv(b)
  {
    exists m :: m in LegalMoves(b) && m in GenMoves(b) && Mated(Next(b, m))
  }

  /** What the move a search of this depth returns does about mates. */
  ghost predicate MatesRight(b: Position, depth: int, m: Move)
    requires Inv(b)
  {
    && m in GenMoves(b)
    && (depth >= 2 && CanMate(b) ==> Mated(Next(b, m)))
    && (forall n: int :: n < depth && WinsIn(b, n) ==> LosesIn(Next(b, m), n - 1))
    && (forall n: int :: n < depth && WinsIn(Next(b, m), n - 1) ==> LosesIn(b, n))
  }

  lemma BestMatesRight(b: Position, depth: int, m: Move)
    requires KingsSafe(b) && Inv(b) && 0 < depth <= MATE_DEPTH && BestMove(b, depth, m)
    ensures MatesRight(b, depth, m)
  {
    hide Negamax, KingsSafe, LegalMoves, GenMoves, WinsIn, LosesIn, Inv;
    forall n: int | n < depth && WinsIn(b, n) ensures LosesIn(Next(b, m), n - 1) { BestMoveMates(b, depth, m, n); }
    forall n: int | n < depth && WinsIn(Next(b, m), n - 1) ensures LosesIn(b, n) { BestMoveMates(b, depth, m, n); }
    if depth >= 2 && CanMate(b) {
      MateAtOnce(b);
      BestMoveMates(b, depth, m, 1);
      LosesNow(Next(b, m));
    }
  }

  lemma MateAtOnce(b: Position)
    requires Inv(b) && CanMate(b)
    ensures WinsIn(b, 1)
  {
    var m :| m in LegalMoves(b) && m in GenMoves(b) && Mated(Next(b, m));
    var i :| 0 <= i < |LegalMoves(b)| && LegalMoves(b)[i] == m;
    LegalAreGenerated(b);
    hide LegalMoves, GenMoves, Mated;
    assert LosesIn(Next(b, LegalMoves(b)[i]), 0);
  }

  lemma LosesNow(b: Position)
    requires Inv(b) && LosesIn(b, 0)
    ensures Mated(b)
  {
    hide Mated;
  }

  /** search: on every board of a legal game the move returned is a minimax best move at
      the full depth, and no move is returned only when there is none to play.  It mates if
      it can, as fast as can be forced, and is mated only if it must be. */
  method Search(b: Board, maxDepth: int) returns (best: Move)
    requires KingsSafe(b.State()) && maxDepth <= 2 * MATE
    modifies b, b.piece
    ensures b.State() == old(b.State())
    ensures maxDepth >= 1 && LegalMoves(b.State()) != [] ==> BestMove(b.State(), maxDepth, best)
    ensures 1 <= maxDepth <= MATE_DEPTH && LegalMoves(b.State()) != [] ==> MatesRight(b.State(), maxDepth, best)
    ensures maxDepth < 1 || LegalMoves(b.State()) == [] ==> best == NO_MOVE
  {
    hide Attacked, KingsAt, LegalMoves, BestMove, RootChoice, Pruned, MatesRight;
    ghost var pos := b.State();
    var ss := new SearchState();
    best := NO_MOVE;
    var depth := 1;
    while depth <= maxDepth
      invariant 1 <= depth <= Max(1, maxDepth + 1)
      invariant b.State() == pos
      invariant LegalMoves(pos) == [] || depth == 1 ==> best == NO_MOVE
      invariant LegalMoves(pos) != [] && depth > 1 ==> BestMove(pos, depth - 1, best)
    {
      ss.bestMove := NO_MOVE;
      var score := AlphaBeta(b, depth, -INF, INF, ss, 0);
      RootResult(pos, depth, score, ss.bestMove);
      if ss.bestMove != NO_MOVE { best := ss.bestMove; }
      depth := depth + 1;
    }
    if 1 <= maxDepth <= MATE_DEPTH && LegalMoves(pos) != [] { BestMatesRight(pos, maxDepth, best); }
  }
}
