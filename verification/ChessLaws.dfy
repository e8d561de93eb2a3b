/**
 The laws of piece movement, in terms of files, ranks and the squares between:
 attack detection and move generation are exactly these.
 */
module ChessLaws {
  import opened ChessBoard
  import opened ChessMoves
  import opened ChessRules

  // ---- geometry --------------------------------------------------------------

  function Abs(x: int): nat { if x < 0 then -x else x }

  function Sign(x: int): int { if x < 0 then -1 else if x > 0 then 1 else 0 }

  function FileGap(s: nat, t: nat): int { FileOf(t) - FileOf(s) }

  function RankGap(s: nat, t: nat): int { RankOf(t) - RankOf(s) }

  predicate KnightLeap(s: nat, t: nat)
  {
    (Abs(FileGap(s, t)) == 1 && Abs(RankGap(s, t)) == 2) || (Abs(FileGap(s, t)) == 2 && Abs(RankGap(s, t)) == 1)
  }

  predicate KingStep(s: nat, t: nat) { s != t && Abs(FileGap(s, t)) <= 1 && Abs(RankGap(s, t)) <= 1 }

  predicate Diagonal(s: nat, t: nat) { s != t && Abs(FileGap(s, t)) == Abs(RankGap(s, t)) }

  predicate Straight(s: nat, t: nat) { s != t && (FileGap(s, t) == 0 || RankGap(s, t) == 0) }

  function Distance(s: nat, t: nat): nat
  {
    if Abs(FileGap(s, t)) > Abs(RankGap(s, t)) then Abs(FileGap(s, t)) else Abs(RankGap(s, t))
  }

  /** k steps of dx from x. */
  function Along(x: int, dx: int, k: nat): int { if dx > 0 then x + k else if dx < 0 then x - k else x }

  /** The square k steps of d from (f, r) is on the board and empty. */
  predicate ClearAt(p: seq<nat>, f: int, r: int, d: Dir, k: nat)
    requires |p| == 64
  {
    OnBoard(Along(f, d.0, k), Along(r, d.1, k)) && p[Sq(Along(f, d.0, k), Along(r, d.1, k))] == EMPTY
  }

  function Towards(s: nat, t: nat): Dir { (Sign(FileGap(s, t)), Sign(RankGap(s, t))) }

  /** Every square strictly between s and t is empty. */
  ghost predicate Open(p: seq<nat>, s: nat, t: nat)
    requires |p| == 64
  {
    forall k :: 0 < k < Distance(s, t) ==> ClearAt(p, FileOf(s), RankOf(s), Towards(s, t), k)
  }

  /** The piece on s, not a pawn, bears on t. */
  ghost predicate Bears(p: seq<nat>, s: nat, t: nat)
    requires |p| == 64 && s < 64
  {
    match Kind(p[s])
    case 2 => KnightLeap(s, t)
    case 3 => Diagonal(s, t) && Open(p, s, t)
    case 4 => Straight(s, t) && Open(p, s, t)
    case 5 => (Diagonal(s, t) || Straight(s, t)) && Open(p, s, t)
    case 6 => KingStep(s, t)
    case _ => false
  }

  /** A pawn of this side on s bears on t. */
  predicate PawnBears(side: nat, s: nat, t: nat)
  {
    Abs(FileGap(s, t)) == 1 && RankGap(s, t) == PawnDir(side)
  }

  ghost predicate Threat(p: seq<nat>, s: nat, t: nat, att: nat)
    requires |p| == 64
  {
    s < 64 && p[s] != EMPTY && Color(p[s]) == att && (Bears(p, s, t) || (Kind(p[s]) == 1 && PawnBears(att, s, t)))
  }

  lemma Coordinates(s: nat)
    requires s < 64
    ensures OnBoard(FileOf(s), RankOf(s)) && Sq(FileOf(s), RankOf(s)) == s
  {}

  lemma SameCoordinates(s: nat, t: nat)
    requires s < 64 && t < 64 && FileOf(s) == FileOf(t) && RankOf(s) == RankOf(t)
    ensures s == t
  {
    Coordinates(s);
    Coordinates(t);
  }

  /** The k-th step from s towards t is the (n - k)-th from t towards s. */
  lemma OpenSymmetric(p: seq<nat>, s: nat, t: nat)
    requires |p| == 64 && s < 64 && t < 64 && (Diagonal(s, t) || Straight(s, t)) && Open(p, s, t)
    ensures Open(p, t, s)
  {
    hide FileOf, RankOf;
    var n := Distance(s, t);
    forall k | 0 < k < n ensures ClearAt(p, FileOf(t), RankOf(t), Towards(t, s), k) {
      var j := n - k;
      assert ClearAt(p, FileOf(s), RankOf(s), Towards(s, t), j);
    }
  }

  // ---- walks -----------------------------------------------------------------

  /** Walking from (f, r) in direction d the first k squares are empty, and the next is on the board. */
  ghost predicate Path(p: seq<nat>, f: int, r: int, d: Dir, k: nat)
    requires |p| == 64
  {
    OnBoard(Along(f, d.0, k), Along(r, d.1, k)) && forall j :: 0 <= j < k ==> ClearAt(p, f, r, d, j)
  }

  function PathEnd(f: int, r: int, d: Dir, k: nat): int { Sq(Along(f, d.0, k), Along(r, d.1, k)) }

  lemma AlongNext(x: int, dx: int, k: nat)
    requires -1 <= dx <= 1
    ensures Along(x, dx, k + 1) == Along(x + dx, dx, k) && Along(x, dx, 0) == x
  {}

  lemma ClearNext(p: seq<nat>, f: int, r: int, d: Dir, k: nat)
    requires |p| == 64 && UnitDir(d)
    ensures ClearAt(p, f, r, d, k + 1) <==> ClearAt(p, f + d.0, r + d.1, d, k)
  {
    AlongNext(f, d.0, k);
    AlongNext(r, d.1, k);
    hide Along;
  }

  lemma PathTail(p: seq<nat>, f: int, r: int, d: Dir, k: nat)
    requires |p| == 64 && UnitDir(d) && k > 0
    ensures Path(p, f, r, d, k) <==> ClearAt(p, f, r, d, 0) && Path(p, f + d.0, r + d.1, d, k - 1)
    ensures PathEnd(f, r, d, k) == PathEnd(f + d.0, r + d.1, d, k - 1)
  {
    hide ClearAt, Along;
    AlongNext(f, d.0, k - 1);
    AlongNext(r, d.1, k - 1);
    if ClearAt(p, f, r, d, 0) && Path(p, f + d.0, r + d.1, d, k - 1) {
      forall j | 0 <= j < k ensures ClearAt(p, f, r, d, j) { if j > 0 { ClearNext(p, f, r, d, j - 1); } }
    }
    var f', r' := f + d.0, r + d.1;
    if Path(p, f, r, d, k) {
      forall j | 0 <= j < k - 1 ensures ClearAt(p, f', r', d, j) { ClearNext(p, f, r, d, j); }
    }
  }

  lemma PathStart(p: seq<nat>, f: int, r: int, d: Dir)
    requires |p| == 64
    ensures Path(p, f, r, d, 0) <==> OnBoard(f, r)
    ensures ClearAt(p, f, r, d, 0) <==> OnBoard(f, r) && p[Sq(f, r)] == EMPTY
    ensures PathEnd(f, r, d, 0) == Sq(f, r)
  {}

  lemma PathOnBoard(p: seq<nat>, f: int, r: int, d: Dir, k: nat)
    requires |p| == 64 && UnitDir(d) && Path(p, f, r, d, k)
    ensures OnBoard(f, r) && 0 <= PathEnd(f, r, d, k) < 64
  {
    SqCoords(Along(f, d.0, k), Along(r, d.1, k));
    hide Path, Along, ClearAt;
    PathStart(p, f, r, d);
    if k > 0 { PathTail(p, f, r, d, k); }
  }

  /** The first piece a ray meets stands at the end of a path. */
  lemma {:induction false} RayHitPath(p: seq<nat>, f: int, r: int, d: Dir) returns (k: nat)
    requires |p| == 64 && UnitDir(d) && RayHit(p, f, r, d) != EMPTY
    ensures Path(p, f, r, d, k) && 0 <= PathEnd(f, r, d, k) < 64 && p[PathEnd(f, r, d, k)] == RayHit(p, f, r, d)
    decreases RayLeft(f, r, d)
  {
    assert OnBoard(f, r) && RayHit(p, f, r, d) == if p[Sq(f, r)] != EMPTY then p[Sq(f, r)]
        else RayHit(p, f + d.0, r + d.1, d);
    hide Path, PathEnd, Along, ClearAt, RayHit, Sq;
    PathStart(p, f, r, d);
    if p[Sq(f, r)] != EMPTY {
      k := 0;
    } else {
      k := RayHitPath(p, f + d.0, r + d.1, d);
      k := k + 1;
      PathTail(p, f, r, d, k);
    }
  }

  lemma {:induction false} PathRayHit(p: seq<nat>, f: int, r: int, d: Dir, k: nat)
    requires |p| == 64 && UnitDir(d) && Path(p, f, r, d, k)
    ensures 0 <= PathEnd(f, r, d, k) < 64
    ensures p[PathEnd(f, r, d, k)] != EMPTY ==> RayHit(p, f, r, d) == p[PathEnd(f, r, d, k)]
    decreases k
  {
    assert OnBoard(f, r) ==> RayHit(p, f, r, d) == if p[Sq(f, r)] != EMPTY then p[Sq(f, r)]
        else RayHit(p, f + d.0, r + d.1, d);
    hide Path, PathEnd, Along, ClearAt, RayHit, Sq;
    PathOnBoard(p, f, r, d, k);
    PathStart(p, f, r, d);
    if k > 0 {
      PathTail(p, f, r, d, k);
      PathRayHit(p, f + d.0, r + d.1, d, k - 1);
    }
  }

  /** A line between two squares is a path, one step from s on, and ends in t. */
  lemma LineIsPath(p: seq<nat>, s: nat, t: nat)
    requires |p| == 64 && s < 64 && t < 64 && (Diagonal(s, t) || Straight(s, t))
    ensures var d := Towards(s, t);
            && UnitDir(d) && Distance(s, t) > 0
            && (Open(p, s, t) <==> Path(p, FileOf(s) + d.0, RankOf(s) + d.1, d, Distance(s, t) - 1))
            && PathEnd(FileOf(s) + d.0, RankOf(s) + d.1, d, Distance(s, t) - 1) == t
  {
    hide FileOf, RankOf, ClearAt, Along, Towards, Distance, Diagonal, Straight;
    LineEnds(s, t);
    var d, n := Towards(s, t), Distance(s, t);
    var f, r := FileOf(s), RankOf(s);
    var f', r' := f + d.0, r + d.1;
    Coordinates(t);
    AlongNext(f, d.0, n - 1);
    AlongNext(r, d.1, n - 1);
    if Open(p, s, t) {
      forall j | 0 <= j < n - 1 ensures ClearAt(p, f', r', d, j) { ClearNext(p, f, r, d, j); }
    }
    if Path(p, f', r', d, n - 1) {
      forall k | 0 < k < n ensures ClearAt(p, f, r, d, k) { ClearNext(p, f, r, d, k - 1); }
    }
  }

  lemma LineEnds(s: nat, t: nat)
    requires s < 64 && t < 64 && (Diagonal(s, t) || Straight(s, t))
    ensures UnitDir(Towards(s, t)) && Distance(s, t) > 0
    ensures Along(FileOf(s), Towards(s, t).0, Distance(s, t)) == FileOf(t)
    ensures Along(RankOf(s), Towards(s, t).1, Distance(s, t)) == RankOf(t)
  {
    if FileGap(s, t) == 0 && RankGap(s, t) == 0 { SameCoordinates(s, t); }
    hide FileOf, RankOf;
  }

  /** A path from next to s runs along the line to its end. */
  lemma PathIsLine(p: seq<nat>, s: nat, d: Dir, k: nat)
    requires |p| == 64 && s < 64 && UnitDir(d) && Path(p, FileOf(s) + d.0, RankOf(s) + d.1, d, k)
    ensures var t := PathEnd(FileOf(s) + d.0, RankOf(s) + d.1, d, k);
            && 0 <= t < 64 && d == Towards(s, t) && Distance(s, t) == k + 1 && Open(p, s, t)
            && (d.0 != 0 && d.1 != 0 ==> Diagonal(s, t)) && (d.0 == 0 || d.1 == 0 ==> Straight(s, t))
  {
    hide ClearAt, FileOf, RankOf, Sq, Along, Open, Towards, Distance, Diagonal, Straight;
    var f, r := FileOf(s) + d.0, RankOf(s) + d.1;
    SqCoords(Along(f, d.0, k), Along(r, d.1, k));
    var t := PathEnd(f, r, d, k);
    GapsAlong(s, t, d, k);
    LineIsPath(p, s, t);
  }

  lemma GapsAlong(s: nat, t: nat, d: Dir, k: nat)
    requires UnitDir(d) && FileOf(t) == Along(FileOf(s) + d.0, d.0, k) && RankOf(t) == Along(RankOf(s) + d.1, d.1, k)
    ensures d == Towards(s, t) && Distance(s, t) == k + 1 && t != s
    ensures (d.0 != 0 && d.1 != 0 ==> Diagonal(s, t)) && (d.0 == 0 || d.1 == 0 ==> Straight(s, t))
  {
    hide FileOf, RankOf;
  }

  // ---- attacks ---------------------------------------------------------------

  function Gaps(s: nat, t: nat): Dir { (FileGap(s, t), RankGap(s, t)) }

  /** The piece a step away from t. */
  lemma StepFinds(p: seq<nat>, t: nat, d: Dir, kind: nat, att: nat) returns (s: nat)
    requires |p| == 64 && t < 64 && StepHit(p, FileOf(t), RankOf(t), d, kind, att)
    ensures s < 64 && Kind(p[s]) == kind && Color(p[s]) == att && Gaps(t, s) == d
  {
    var f, r := FileOf(t) + d.0, RankOf(t) + d.1;
    SqCoords(f, r);
    s := Sq(f, r);
    hide FileOf, RankOf, Sq, Kind, Color;
  }

  lemma StepHits(p: seq<nat>, t: nat, s: nat)
    requires |p| == 64 && s < 64
    ensures StepHit(p, FileOf(t), RankOf(t), Gaps(t, s), Kind(p[s]), Color(p[s]))
  {
    Coordinates(s);
    hide FileOf, RankOf, Sq, Kind, Color;
  }

  ghost predicate StepFrom(p: seq<nat>, s: nat, t: nat, dirs: seq<Dir>, kind: nat, att: nat)
    requires |p| == 64
  {
    s < 64 && Kind(p[s]) == kind && Color(p[s]) == att && Gaps(t, s) in dirs
  }

  lemma StepAttackIff(p: seq<nat>, t: nat, dirs: seq<Dir>, kind: nat, att: nat)
    requires |p| == 64 && t < 64
    ensures StepAttack(p, t, dirs, kind, att) <==> exists s :: StepFrom(p, s, t, dirs, kind, att)
  {
    hide StepHit, FileOf, RankOf, Kind, Color;
    if StepAttack(p, t, dirs, kind, att) {
      var i :| 0 <= i < |dirs| && StepHit(p, FileOf(t), RankOf(t), dirs[i], kind, att);
      var s := StepFinds(p, t, dirs[i], kind, att);
      assert StepFrom(p, s, t, dirs, kind, att);
    }
    if s :| StepFrom(p, s, t, dirs, kind, att) {
      StepHits(p, t, s);
      var i :| 0 <= i < |dirs| && dirs[i] == Gaps(t, s);
    }
  }

  predicate Aligned(s: nat, t: nat) { Diagonal(s, t) || Straight(s, t) }

  ghost predicate SlideFrom(p: seq<nat>, s: nat, t: nat, dirs: seq<Dir>, kind: nat, att: nat)
    requires |p| == 64
  {
    && s < 64 && p[s] != EMPTY && Color(p[s]) == att && (Kind(p[s]) == kind || Kind(p[s]) == 5)
    && Aligned(t, s) && Towards(t, s) in dirs && Open(p, t, s)
  }

  /** The slider in sight of t. */
  lemma SlideFinds(p: seq<nat>, t: nat, d: Dir, kind: nat, att: nat) returns (s: nat)
    requires |p| == 64 && t < 64 && UnitDir(d) && SlideHit(p, FileOf(t), RankOf(t), d, kind, att)
    ensures SlideFrom(p, s, t, [d], kind, att)
  {
    hide FileOf, RankOf, Path, PathEnd, RayHit, Kind, Color, Open, Towards, Diagonal, Straight;
    var k := RayHitPath(p, FileOf(t) + d.0, RankOf(t) + d.1, d);
    s := PathEnd(FileOf(t) + d.0, RankOf(t) + d.1, d, k);
    PathIsLine(p, t, d, k);
  }

  lemma SlideHits(p: seq<nat>, t: nat, s: nat, kind: nat, att: nat)
    requires |p| == 64 && t < 64 && SlideFrom(p, s, t, [Towards(t, s)], kind, att)
    ensures UnitDir(Towards(t, s)) && SlideHit(p, FileOf(t), RankOf(t), Towards(t, s), kind, att)
  {
    hide FileOf, RankOf, Path, PathEnd, RayHit, Kind, Color, Open, Towards, Diagonal, Straight, Distance;
    var d := Towards(t, s);
    LineIsPath(p, t, s);
    PathRayHit(p, FileOf(t) + d.0, RankOf(t) + d.1, d, Distance(t, s) - 1);
  }

  lemma SlideAttackIff(p: seq<nat>, t: nat, dirs: seq<Dir>, kind: nat, att: nat)
    requires |p| == 64 && t < 64 && forall i :: 0 <= i < |dirs| ==> UnitDir(dirs[i])
    ensures SlideAttack(p, t, dirs, kind, att) <==> exists s :: SlideFrom(p, s, t, dirs, kind, att)
  {
    hide FileOf, RankOf, SlideHit, Open, Aligned, Towards, Kind, Color;
    if SlideAttack(p, t, dirs, kind, att) {
      var i :| 0 <= i < |dirs| && SlideHit(p, FileOf(t), RankOf(t), dirs[i], kind, att);
      var s := SlideFinds(p, t, dirs[i], kind, att);
      assert SlideFrom(p, s, t, dirs, kind, att);
    }
    if s :| SlideFrom(p, s, t, dirs, kind, att) {
      assert SlideFrom(p, s, t, [Towards(t, s)], kind, att);
      SlideHits(p, t, s, kind, att);
      var i :| 0 <= i < |dirs| && dirs[i] == Towards(t, s);
    }
  }

  lemma LeapDirs(s: nat, t: nat)
    requires s < 64 && t < 64
    ensures KnightLeap(s, t) <==> Gaps(s, t) in KNIGHT_DIRS
    ensures KingStep(s, t) <==> Gaps(s, t) in KING_DIRS
    ensures KnightLeap(s, t) <==> KnightLeap(t, s)
    ensures KingStep(s, t) <==> KingStep(t, s)
  {
    if FileGap(s, t) == 0 && RankGap(s, t) == 0 { SameCoordinates(s, t); }
    hide FileOf, RankOf;
    var d := Gaps(s, t);
    KnightDirs(d);
    KingDirs(d);
  }

  lemma KnightDirs(d: Dir)
    ensures d in KNIGHT_DIRS <==> (Abs(d.0) == 1 && Abs(d.1) == 2) || (Abs(d.0) == 2 && Abs(d.1) == 1)
  {
    if Abs(d.0) == 1 && Abs(d.1) == 2 {
      assert d == KNIGHT_DIRS[if d.0 < 0 then (if d.1 < 0 then 2 else 3) else (if d.1 < 0 then 4 else 5)];
    } else if Abs(d.0) == 2 && Abs(d.1) == 1 {
      assert d == KNIGHT_DIRS[if d.0 < 0 then (if d.1 < 0 then 0 else 1) else (if d.1 < 0 then 6 else 7)];
    }
  }

  lemma KingDirs(d: Dir)
    ensures d in KING_DIRS <==> UnitDir(d)
  {
    if UnitDir(d) {
      assert d == KING_DIRS[if d.0 < 0 then d.1 + 1 else if d.0 == 0 then (if d.1 < 0 then 3 else 4) else d.1 + 6];
    }
  }

  lemma SlideDirs(d: Dir)
    ensures d in BISHOP_DIRS <==> UnitDir(d) && d.0 != 0 && d.1 != 0
    ensures d in ROOK_DIRS <==> UnitDir(d) && (d.0 == 0 || d.1 == 0)
  {
    if UnitDir(d) {
      if d.0 != 0 && d.1 != 0 {
        assert d == BISHOP_DIRS[if d.0 < 0 then (if d.1 < 0 then 0 else 1) else (if d.1 < 0 then 2 else 3)];
      } else {
        assert d == ROOK_DIRS[if d.0 < 0 then 0 else if d.0 > 0 then 1 else if d.1 < 0 then 2 else 3];
      }
    }
  }

  lemma LineDirs(s: nat, t: nat)
    requires s < 64 && t < 64
    ensures Diagonal(s, t) <==> Aligned(s, t) && Towards(s, t) in BISHOP_DIRS
    ensures Straight(s, t) <==> Aligned(s, t) && Towards(s, t) in ROOK_DIRS
    ensures (Diagonal(s, t) <==> Diagonal(t, s)) && (Straight(s, t) <==> Straight(t, s))
  {
    if FileGap(s, t) == 0 && RankGap(s, t) == 0 { SameCoordinates(s, t); }
    SlideDirs(Towards(s, t));
    hide FileOf, RankOf;
  }

  ghost predicate Codes(p: seq<nat>) { |p| == 64 && forall i :: 0 <= i < 64 ==> PieceCode(p[i]) }

  lemma PawnDirs(att: nat, s: nat, t: nat)
    ensures PawnBears(att, s, t) <==> Gaps(t, s) in PawnSources(att)
  {
    hide FileOf, RankOf;
    var d, ds := Gaps(t, s), PawnSources(att);
    if PawnBears(att, s, t) { assert d == ds[if d.0 < 0 then 0 else 1]; }
  }

  /** The five ways of bearing on a square, one for each scan of sq_attacked. */
  lemma ThreatKinds(p: seq<nat>, s: nat, t: nat, att: nat)
    requires Codes(p) && s < 64 && t < 64
    ensures Threat(p, s, t, att) <==>
            || StepFrom(p, s, t, PawnSources(att), 1, att)
            || StepFrom(p, s, t, KNIGHT_DIRS, 2, att)
            || StepFrom(p, s, t, KING_DIRS, 6, att)
            || SlideFrom(p, s, t, BISHOP_DIRS, 3, att)
            || SlideFrom(p, s, t, ROOK_DIRS, 4, att)
  {
    assert PieceCode(p[s]);
    PawnDirs(att, s, t);
    LeapDirs(t, s);
    LineDirs(t, s);
    if Aligned(t, s) && Open(p, t, s) { OpenSymmetric(p, t, s); }
    if Aligned(s, t) && Open(p, s, t) { OpenSymmetric(p, s, t); }
    hide FileOf, RankOf, Open, Diagonal, Straight, KnightLeap, KingStep, PawnBears, Towards, Gaps;
  }

  /** sq_attacked answers by the laws: some piece of that side bears on the square. */
  lemma AttackedIff(p: seq<nat>, t: nat, att: nat)
    requires Codes(p) && t < 64
    ensures Attacked(p, t, att) <==> exists s :: Threat(p, s, t, att)
  {
    hide StepAttack, SlideAttack, Bears, PawnBears, Gaps, Towards, Open, Aligned, Kind, Color, FileOf, RankOf;
    StepAttackIff(p, t, PawnSources(att), 1, att);
    StepAttackIff(p, t, KNIGHT_DIRS, 2, att);
    StepAttackIff(p, t, KING_DIRS, 6, att);
    SlideAttackIff(p, t, BISHOP_DIRS, 3, att);
    SlideAttackIff(p, t, ROOK_DIRS, 4, att);
    if s :| Threat(p, s, t, att) { ThreatKinds(p, s, t, att); }
    if s :| StepFrom(p, s, t, PawnSources(att), 1, att) { ThreatKinds(p, s, t, att); }
    if s :| StepFrom(p, s, t, KNIGHT_DIRS, 2, att) { ThreatKinds(p, s, t, att); }
    if s :| StepFrom(p, s, t, KING_DIRS, 6, att) { ThreatKinds(p, s, t, att); }
    if s :| SlideFrom(p, s, t, BISHOP_DIRS, 3, att) { ThreatKinds(p, s, t, att); }
    if s :| SlideFrom(p, s, t, ROOK_DIRS, 4, att) { ThreatKinds(p, s, t, att); }
  }

  // ---- moves -----------------------------------------------------------------

  /** m takes the piece on s to an empty square, or to an enemy's and takes it. */
  predicate Lands(p: seq<nat>, side: nat, s: nat, m: Move)
    requires |p| == 64
  {
    m.from == s && m.to < 64 &&
    if p[m.to] == EMPTY then m.flag == 0 else Color(p[m.to]) != side && m.flag == CAPTURE
  }

  lemma LandingIff(p: seq<nat>, side: nat, s: nat, f: int, r: int, m: Move)
    requires |p| == 64 && OnBoard(f, r)
    ensures m in Landing(p, side, s, f, r) <==> Lands(p, side, s, m) && m.to == Sq(f, r)
  {}

  lemma {:induction false} StepHas(p: seq<nat>, side: nat, s: nat, dirs: seq<Dir>, i: nat, m: Move)
    requires |p| == 64 && i < |dirs| && OnBoard(FileOf(s) + dirs[i].0, RankOf(s) + dirs[i].1)
    requires m in Landing(p, side, s, FileOf(s) + dirs[i].0, RankOf(s) + dirs[i].1)
    ensures m in StepMoves(p, side, s, dirs)
  {
    hide Landing, FileOf, RankOf;
    if i < |dirs| - 1 { StepHas(p, side, s, dirs[..|dirs| - 1], i, m); }
  }

  lemma {:induction false} StepComes(p: seq<nat>, side: nat, s: nat, dirs: seq<Dir>, m: Move) returns (i: nat)
    requires |p| == 64 && m in StepMoves(p, side, s, dirs)
    ensures i < |dirs| && OnBoard(FileOf(s) + dirs[i].0, RankOf(s) + dirs[i].1)
    ensures m in Landing(p, side, s, FileOf(s) + dirs[i].0, RankOf(s) + dirs[i].1)
  {
    hide Landing, FileOf, RankOf;
    i := |dirs| - 1;
    var f, r := FileOf(s) + dirs[i].0, RankOf(s) + dirs[i].1;
    if !(OnBoard(f, r) && m in Landing(p, side, s, f, r)) { i := StepComes(p, side, s, dirs[..i], m); }
  }

  lemma StepMovesIff(p: seq<nat>, side: nat, s: nat, dirs: seq<Dir>, m: Move)
    requires |p| == 64 && s < 64
    ensures m in StepMoves(p, side, s, dirs) <==> Lands(p, side, s, m) && Gaps(s, m.to) in dirs
  {
    hide StepMoves, Landing, Lands, FileOf, RankOf, Sq;
    if m in StepMoves(p, side, s, dirs) {
      var i := StepComes(p, side, s, dirs, m);
      var f, r := FileOf(s) + dirs[i].0, RankOf(s) + dirs[i].1;
      LandingIff(p, side, s, f, r, m);
      SqCoords(f, r);
    }
    if Lands(p, side, s, m) && Gaps(s, m.to) in dirs {
      var i :| 0 <= i < |dirs| && dirs[i] == Gaps(s, m.to);
      assert m.to < 64 by { LandsOnBoard(p, side, s, m); }
      Coordinates(m.to);
      LandingIff(p, side, s, FileOf(m.to), RankOf(m.to), m);
      assert FileOf(s) + dirs[i].0 == FileOf(m.to) && RankOf(s) + dirs[i].1 == RankOf(m.to);
      StepHas(p, side, s, dirs, i, m);
    }
  }

  lemma LandsOnBoard(p: seq<nat>, side: nat, s: nat, m: Move)
    requires |p| == 64 && Lands(p, side, s, m)
    ensures m.to < 64 && m.from == s
  {}

  /** A slide's moves are those that end a path. */
  lemma {:induction false} RayComes(p: seq<nat>, side: nat, s: nat, f: int, r: int, d: Dir, m: Move) returns (k: nat)
    requires |p| == 64 && UnitDir(d) && m in Ray(p, side, s, f, r, d)
    ensures Path(p, f, r, d, k) && Lands(p, side, s, m) && m.to == PathEnd(f, r, d, k)
    decreases RayLeft(f, r, d)
  {
    hide Ray, Landing, Path, PathEnd, ClearAt, Along, Lands, Sq;
    RaySplits(p, side, s, f, r, d, m);
    LandingIff(p, side, s, f, r, m);
    PathStart(p, f, r, d);
    if m in Landing(p, side, s, f, r) {
      k := 0;
    } else {
      k := RayComes(p, side, s, f + d.0, r + d.1, d, m);
      k := k + 1;
      PathTail(p, f, r, d, k);
    }
  }

  lemma {:induction false} RayHas(p: seq<nat>, side: nat, s: nat, f: int, r: int, d: Dir, k: nat, m: Move)
    requires |p| == 64 && UnitDir(d) && Path(p, f, r, d, k) && Lands(p, side, s, m) && m.to == PathEnd(f, r, d, k)
    ensures m in Ray(p, side, s, f, r, d)
    decreases k
  {
    hide Ray, Landing, Path, PathEnd, ClearAt, Along, Lands, Sq;
    RaySplits(p, side, s, f, r, d, m);
    PathOnBoard(p, f, r, d, k);
    LandingIff(p, side, s, f, r, m);
    PathStart(p, f, r, d);
    if k > 0 {
      PathTail(p, f, r, d, k);
      RayHas(p, side, s, f + d.0, r + d.1, d, k - 1, m);
    }
  }

  lemma {:induction false} SlideHas(p: seq<nat>, side: nat, s: nat, dirs: seq<Dir>, i: nat, m: Move)
    requires |p| == 64 && (forall i :: 0 <= i < |dirs| ==> UnitDir(dirs[i])) && i < |dirs|
    requires m in Ray(p, side, s, FileOf(s) + dirs[i].0, RankOf(s) + dirs[i].1, dirs[i])
    ensures m in SlideMoves(p, side, s, dirs)
  {
    hide Ray, FileOf, RankOf;
    if i < |dirs| - 1 { SlideHas(p, side, s, dirs[..|dirs| - 1], i, m); }
  }

  lemma SlideMovesIff(p: seq<nat>, side: nat, s: nat, dirs: seq<Dir>, m: Move)
    requires |p| == 64 && s < 64 && forall i :: 0 <= i < |dirs| ==> UnitDir(dirs[i])
    ensures m in SlideMoves(p, side, s, dirs) <==>
            Lands(p, side, s, m) && Aligned(s, m.to) && Towards(s, m.to) in dirs && Open(p, s, m.to)
  {
    hide SlideMoves, Ray, Lands, FileOf, RankOf, Path, PathEnd, Open, Diagonal, Straight, Towards, Distance;
    if m in SlideMoves(p, side, s, dirs) {
      var i := SlideSource(p, side, s, dirs, m);
      var k := RayComes(p, side, s, FileOf(s) + dirs[i].0, RankOf(s) + dirs[i].1, dirs[i], m);
      PathIsLine(p, s, dirs[i], k);
    }
    if Lands(p, side, s, m) && Aligned(s, m.to) && Towards(s, m.to) in dirs && Open(p, s, m.to) {
      LandsOnBoard(p, side, s, m);
      var i :| 0 <= i < |dirs| && dirs[i] == Towards(s, m.to);
      LineIsPath(p, s, m.to);
      RayHas(p, side, s, FileOf(s) + dirs[i].0, RankOf(s) + dirs[i].1, dirs[i], Distance(s, m.to) - 1, m);
      SlideHas(p, side, s, dirs, i, m);
    }
  }

  // ---- the laws --------------------------------------------------------------

  function LastRank(side: nat): int { if side == WHITE then 7 else 0 }

  function Home(side: nat): nat { if side == WHITE then 4 else 60 }

  /** A pawn one square ahead, which on the last rank becomes a knight, bishop, rook or queen. */
  predicate PushLaw(b: Position, m: Move)
    requires Shape(b) && m.to < 64
  {
    && FileGap(m.from, m.to) == 0 && RankGap(m.from, m.to) == PawnDir(b.side) && b.piece[m.to] == EMPTY
    && if RankOf(m.to) == LastRank(b.side) then 8 <= m.flag <= 11 else m.flag == 0
  }

  /** Two squares ahead from the second rank, both empty. */
  predicate DoubleLaw(b: Position, m: Move)
    requires Shape(b) && m.from < 64 && m.to < 64
  {
    && m.flag == DOUBLE && RankOf(m.from) == (if b.side == WHITE then 1 else 6)
    && m.to == m.from + 16 * PawnDir(b.side)
    && b.piece[m.from + 8 * PawnDir(b.side)] == EMPTY && b.piece[m.to] == EMPTY
  }

  predicate TakeLaw(b: Position, m: Move)
    requires Shape(b) && m.to < 64
  {
    && PawnBears(b.side, m.from, m.to) && Enemy(b, b.piece[m.to])
    && if RankOf(m.to) == LastRank(b.side) then 12 <= m.flag <= 15 else m.flag == CAPTURE
  }

  /** En passant: to the square behind the pawn that just advanced two squares. */
  predicate EpLaw(b: Position, m: Move)
  {
    && m.flag == EP && PawnBears(b.side, m.from, m.to) && b.ep >= 0
    && FileOf(m.to) == b.ep && RankOf(m.to) == if b.side == WHITE then 5 else 2
  }

  ghost predicate Safe(b: Position, t: nat)
    requires Shape(b)
  {
    forall s :: !Threat(b.piece, s, t, Opp(b.side))
  }

  ghost predicate CastleShortLaw(b: Position, m: Move)
    requires Shape(b)
  {
    var k := Home(b.side);
    && m == Move(k, k + 2, KS_CASTLE) && (if b.side == WHITE then b.castle.wk else b.castle.bk)
    && b.piece[k + 1] == EMPTY && b.piece[k + 2] == EMPTY && Safe(b, k) && Safe(b, k + 1) && Safe(b, k + 2)
  }

  ghost predicate CastleLongLaw(b: Position, m: Move)
    requires Shape(b)
  {
    var k := Home(b.side);
    && m == Move(k, k - 2, QS_CASTLE) && (if b.side == WHITE then b.castle.wq else b.castle.bq)
    && b.piece[k - 1] == EMPTY && b.piece[k - 2] == EMPTY && b.piece[k - 3] == EMPTY
    && Safe(b, k) && Safe(b, k - 1) && Safe(b, k - 2)
  }

  /** The move obeys the laws, save that it may leave the own king attacked. */
  ghost predicate Law(b: Position, m: Move)
    requires Shape(b)
  {
    && OwnPiece(b, m.from) && m.to < 64
    && if Kind(b.piece[m.from]) == 1 then PushLaw(b, m) || DoubleLaw(b, m) || TakeLaw(b, m) || EpLaw(b, m)
       else
         || (Bears(b.piece, m.from, m.to) && Lands(b.piece, b.side, m.from, m))
         || (Kind(b.piece[m.from]) == 6 && (CastleShortLaw(b, m) || CastleLongLaw(b, m)))
  }

  /** The square dr ranks ahead. */
  lemma RanksAhead(s: nat, dr: int)
    requires s < 64 && -2 <= dr <= 2
    ensures OnBoard(FileOf(s), RankOf(s) + dr) <==> 0 <= s + 8 * dr < 64
    ensures Sq(FileOf(s), RankOf(s) + dr) == s + 8 * dr
  {
    Coordinates(s);
  }

  lemma AheadIff(s: nat, t: nat, dr: int)
    requires s < 64 && t < 64 && -2 <= dr <= 2
    ensures FileGap(s, t) == 0 && RankGap(s, t) == dr <==> t == s + 8 * dr
    ensures t == s + 8 * dr ==> RankOf(t) == RankOf(s) + dr
  {
    hide FileOf, RankOf, Sq;
    GapsIff(s, t, 0, dr);
    RanksAhead(s, dr);
  }

  lemma PushesIff(b: Position, s: nat, m: Move)
    requires Shape(b) && s < 64
    ensures m in PawnPushes(b, s) <==> m.from == s && m.to < 64 && (PushLaw(b, m) || DoubleLaw(b, m))
  {
    hide FileOf, RankOf, Sq, FileGap, RankGap;
    var dr := PawnDir(b.side);
    RanksAhead(s, dr);
    RanksAhead(s, 2 * dr);
    if m.to < 64 { AheadIff(s, m.to, dr); }
    if RankOf(s) == StartRank(b.side) { SecondRank(b.side, s); }
  }

  lemma SecondRank(side: nat, s: nat)
    requires s < 64 && RankOf(s) == StartRank(side)
    ensures 0 <= s + 16 * PawnDir(side) < 64 && 0 <= s + 8 * PawnDir(side) < 64
    ensures RankOf(s) + PawnDir(side) != LastRank(side)
  {}

  lemma TakesIff(b: Position, s: nat, m: Move)
    requires Shape(b) && s < 64
    ensures m in PawnTakes(b, s, -1) || m in PawnTakes(b, s, 1) <==>
            m.from == s && m.to < 64 && (TakeLaw(b, m) || EpLaw(b, m))
  {
    hide FileOf, RankOf, Sq;
    TakesOneSide(b, s, -1, m);
    TakesOneSide(b, s, 1, m);
    hide PawnTakes;
  }

  lemma TakesOneSide(b: Position, s: nat, df: int, m: Move)
    requires Shape(b) && s < 64
    ensures m in PawnTakes(b, s, df) <==>
            && m.from == s && m.to < 64 && FileGap(s, m.to) == df && RankGap(s, m.to) == PawnDir(b.side)
            && ((Enemy(b, b.piece[m.to]) &&
                 if RankOf(m.to) == LastRank(b.side) then 12 <= m.flag <= 15 else m.flag == CAPTURE) ||
                (m.flag == EP && b.ep >= 0 && FileOf(m.to) == b.ep && RankOf(m.to) == EpRank(b.side)))
  {
    hide FileOf, RankOf, Sq, FileGap, RankGap;
    var f, nr := FileOf(s) + df, RankOf(s) + PawnDir(b.side);
    if OnBoard(f, nr) { SqCoords(f, nr); }
    if m.to < 64 { GapsIff(s, m.to, df, PawnDir(b.side)); }
  }

  lemma GapsIff(s: nat, t: nat, df: int, dr: int)
    requires s < 64 && t < 64
    ensures FileGap(s, t) == df && RankGap(s, t) == dr <==>
            OnBoard(FileOf(s) + df, RankOf(s) + dr) && t == Sq(FileOf(s) + df, RankOf(s) + dr)
  {
    Coordinates(t);
    var f, r := FileOf(s) + df, RankOf(s) + dr;
    if OnBoard(f, r) { SqCoords(f, r); }
    hide FileOf, RankOf, Sq;
  }

  lemma CastlesIff(b: Position, s: nat, m: Move)
    requires Inv(b) && s < 64
    ensures m in CastleMoves(b, s) <==> m.from == s && (CastleShortLaw(b, m) || CastleLongLaw(b, m))
  {
    hide Attacked, Threat;
    var k, opp := Home(b.side), Opp(b.side);
    assert Codes(b.piece);
    forall t | k - 2 <= t <= k + 2 ensures Attacked(b.piece, t, opp) <==> !Safe(b, t) { AttackedIff(b.piece, t, opp); }
    hide Safe, Inv;
  }

  lemma KnightMovesIff(b: Position, s: nat, m: Move)
    requires Shape(b) && OwnPiece(b, s) && Kind(b.piece[s]) == 2
    ensures m in StepMoves(b.piece, b.side, s, KNIGHT_DIRS) <==> m.from == s && Law(b, m)
  {
    hide StepMoves, KnightLeap, Gaps, FileOf, RankOf;
    StepMovesIff(b.piece, b.side, s, KNIGHT_DIRS, m);
    if m.to < 64 { LeapDirs(s, m.to); }
  }

  lemma KingMovesIff(b: Position, s: nat, m: Move)
    requires Inv(b) && Shape(b) && OwnPiece(b, s) && Kind(b.piece[s]) == 6
    ensures m in StepMoves(b.piece, b.side, s, KING_DIRS) + CastleMoves(b, s) <==> m.from == s && Law(b, m)
  {
    hide StepMoves, CastleMoves, KingStep, Gaps, FileOf, RankOf, Safe, Inv;
    StepMovesIff(b.piece, b.side, s, KING_DIRS, m);
    CastlesIff(b, s, m);
    if m.to < 64 { LeapDirs(s, m.to); }
  }

  lemma SliderMovesIff(b: Position, s: nat, m: Move)
    requires Shape(b) && OwnPiece(b, s)
    ensures m in SlideMoves(b.piece, b.side, s, BISHOP_DIRS) <==>
            Lands(b.piece, b.side, s, m) && Diagonal(s, m.to) && Open(b.piece, s, m.to)
    ensures m in SlideMoves(b.piece, b.side, s, ROOK_DIRS) <==>
            Lands(b.piece, b.side, s, m) && Straight(s, m.to) && Open(b.piece, s, m.to)
  {
    hide SlideMoves, Open, Diagonal, Straight, Towards, FileOf, RankOf;
    SlideMovesIff(b.piece, b.side, s, BISHOP_DIRS, m);
    SlideMovesIff(b.piece, b.side, s, ROOK_DIRS, m);
    if m.to < 64 { LineDirs(s, m.to); }
  }

  lemma SliderLaw(b: Position, s: nat, m: Move)
    requires Shape(b) && OwnPiece(b, s) && 3 <= Kind(b.piece[s]) <= 5
    ensures m.from == s && Law(b, m) <==>
            || (Kind(b.piece[s]) != 4 && m in SlideMoves(b.piece, b.side, s, BISHOP_DIRS))
            || (Kind(b.piece[s]) != 3 && m in SlideMoves(b.piece, b.side, s, ROOK_DIRS))
  {
    hide SlideMoves, Open, Diagonal, Straight, FileOf, RankOf;
    SliderMovesIff(b, s, m);
  }

  lemma PawnMovesIff(b: Position, s: nat, m: Move)
    requires Shape(b) && OwnPiece(b, s) && Kind(b.piece[s]) == 1
    ensures m in PawnMoves(b, s) <==> m.from == s && Law(b, m)
  {
    hide PawnPushes, PawnTakes, PushLaw, DoubleLaw, TakeLaw, EpLaw;
    PushesIff(b, s, m);
    TakesIff(b, s, m);
  }

  lemma NobodysMove(b: Position, s: nat, m: Move)
    requires Shape(b) && s < 64 && !OwnPiece(b, s)
    ensures !(m.from == s && Law(b, m))
  {}

  /** The moves of one piece are those its laws allow. */
  lemma PieceMovesIff(b: Position, s: nat, m: Move)
    requires Inv(b) && s < 64
    ensures m in PieceMoves(b, s) <==> m.from == s && Law(b, m)
  {
    assert PieceCode(b.piece[s]);
    hide Inv, Law, PawnMoves, StepMoves, SlideMoves, CastleMoves;
    if !OwnPiece(b, s) { NobodysMove(b, s, m); } else {
      match Kind(b.piece[s])
      case 1 => PawnMovesIff(b, s, m);
      case 2 => KnightMovesIff(b, s, m);
      case 6 => KingMovesIff(b, s, m);
      case _ => SliderLaw(b, s, m);
    }
  }

  lemma {:induction false} MovesBelowIff(b: Position, n: nat, m: Move)
    requires Inv(b) && n <= 64
    ensures m in MovesBelow(b, n) <==> m.from < n && Law(b, m)
  {
    hide Law, PieceMoves;
    if n > 0 {
      MovesBelowIff(b, n - 1, m);
      PieceMovesIff(b, n - 1, m);
    }
  }

  /** Move generation is exact: the moves are those the laws allow, all of them and no others, as
      long as the list of 256 holds them. */
  lemma MovesAreLawful(b: Position, m: Move)
    requires Inv(b)
    ensures m in GenMoves(b) ==> Law(b, m)
    ensures |MovesBelow(b, 64)| <= MAX_MOVES ==> (m in GenMoves(b) <==> Law(b, m))
  {
    hide Law, MovesBelow;
    MovesBelowIff(b, 64, m);
    if Law(b, m) { LawOnBoard(b, m); }
  }

  lemma LawOnBoard(b: Position, m: Move)
    requires Shape(b) && Law(b, m)
    ensures m.from < 64
  {}

  // ---- what follows from the laws ------------------------------------------------

  /** The converse of CaptureIsAttack: an enemy piece that sq_attacked reports as attacked can be taken. */
  lemma AttackIsCapture(b: Position, t: nat)
    requires Inv(b) && t < 64 && Enemy(b, b.piece[t]) && Attacked(b.piece, t, b.side)
    ensures exists m :: m in MovesBelow(b, 64) && m.to == t && IsCapture(m)
  {
    hide Attacked, MovesBelow, FileOf, RankOf;
    assert Codes(b.piece);
    AttackedIff(b.piece, t, b.side);
    var s: nat :| Threat(b.piece, s, t, b.side);
    var flag := if Kind(b.piece[s]) == 1 && RankOf(t) == LastRank(b.side) then 12 else CAPTURE;
    hide Bears, PawnBears;
    MovesBelowIff(b, 64, Move(s, t, flag));
  }

  /** An empty square that a piece bears on can be moved to. */
  lemma ReachIsMove(b: Position, s: nat, t: nat)
    requires Inv(b) && OwnPiece(b, s) && t < 64 && b.piece[t] == EMPTY && Bears(b.piece, s, t)
    ensures Move(s, t, 0) in MovesBelow(b, 64)
  {
    hide MovesBelow;
    MovesBelowIff(b, 64, Move(s, t, 0));
    hide FileOf, RankOf, Open, KnightLeap, KingStep, Diagonal, Straight, Inv;
  }

  /** A pawn reaching the last rank can become any of the four pieces. */
  lemma AnyPromotion(b: Position, s: nat, kind: nat)
    requires Inv(b) && OwnPiece(b, s) && Kind(b.piece[s]) == 1 && 2 <= kind <= 5
    requires RankOf(s) + PawnDir(b.side) == LastRank(b.side) && 0 <= s + 8 * PawnDir(b.side) < 64
    requires b.piece[s + 8 * PawnDir(b.side)] == EMPTY
    ensures var m := Move(s, s + 8 * PawnDir(b.side), 6 + kind);
            m in MovesBelow(b, 64) && Playable(b, m) && Make(b, m).piece[m.to] == kind + b.side
  {
    hide MovesBelow, FileOf, RankOf, FileGap, RankGap;
    var m := Move(s, s + 8 * PawnDir(b.side), 6 + kind);
    MovesBelowIff(b, 64, m);
    AheadIff(s, m.to, PawnDir(b.side));
    assert PushLaw(b, m);
  }

  /** Castling puts the king two squares on and the rook of that side across it, off their home squares. */
  lemma CastledTogether(b: Position, m: Move)
    requires Inv(b) && m in GenMoves(b) && (m.flag == KS_CASTLE || m.flag == QS_CASTLE)
    ensures Playable(b, m) && (m.from == 4 || m.from == 60)
    ensures var p, k, out := Make(b, m).piece, m.from, if m.flag == KS_CASTLE then 1 else -1;
            && b.piece[k] == 6 + b.side && b.piece[if out == 1 then k + 3 else k - 4] == 4 + b.side
            && p[k + 2 * out] == 6 + b.side && p[k + out] == 4 + b.side
            && p[k] == EMPTY && p[if out == 1 then k + 3 else k - 4] == EMPTY
  {
    GenMovesFit(b, m);
    MoverCode(b, m);
    hide GenMoves;
  }

  /** The move that takes en passant the pawn just advanced by m, from the square beside it. */
  function EpReply(b: Position, m: Move, s: nat): Move { Move(s, (m.from + m.to) / 2, EP) }

  /** A pawn that advances two squares past an enemy pawn can be taken by it on the next move, and is then
      gone from the board. */
  lemma EnPassantAnswers(b: Position, m: Move, s: nat)
    requires Inv(b) && m in GenMoves(b) && m.flag == DOUBLE && s < 64
    requires b.piece[s] == 1 + Opp(b.side) && RankOf(s) == RankOf(m.to) && Abs(FileGap(s, m.to)) == 1
    ensures Playable(b, m) && EpReply(b, m, s) in MovesBelow(Make(b, m), 64)
    ensures Playable(Make(b, m), EpReply(b, m, s)) && m.to < 64
    ensures Make(Make(b, m), EpReply(b, m, s)).piece[m.to] == EMPTY
  {
    GenMovesFit(b, m);
    MakeKeepsInv(b, m);
    var b', e := Make(b, m), EpReply(b, m, s);
    hide GenMoves, MovesBelow, Inv;
    DoubleJumps(b, m, s);
    MovesBelowIff(b', 64, e);
    assert EpLaw(b', e);
  }

  lemma DoubleJumps(b: Position, m: Move, s: nat)
    requires Shape(b) && Fits(b, m) && m.flag == DOUBLE && s < 64
    requires b.piece[s] == 1 + Opp(b.side) && RankOf(s) == RankOf(m.to) && Abs(FileGap(s, m.to)) == 1
    ensures Playable(b, m)
    ensures var b', e := Make(b, m), EpReply(b, m, s);
            && e.to < 64 && EpVictim(b'.side, e.to) == m.to && PawnBears(b'.side, s, e.to)
            && FileOf(e.to) == b'.ep && RankOf(e.to) == (if b'.side == WHITE then 5 else 2)
            && OwnPiece(b', s) && Kind(b'.piece[s]) == 1 && e.to != m.to && s != m.to
  {
    var t, dr := m.from + 8 * PawnDir(b.side), PawnDir(b.side);
    assert t == (m.from + m.to) / 2 && m.to == t + 8 * dr;
    AheadIff(m.from, t, dr);
    AheadIff(t, m.to, dr);
    FarRank(b, m);
    hide FileOf, RankOf;
    assert FileOf(t) == FileOf(m.from) == FileOf(m.to);
    assert s != m.to && s != m.from;
  }

  lemma FarRank(b: Position, m: Move)
    requires Shape(b) && Fits(b, m) && m.flag == DOUBLE
    ensures RankOf(m.from) == if b.side == WHITE then 1 else 6
  {}
}
