/**
 The write-ahead log: a crash after any single sector write, followed by any
 number of interrupted recoveries, and what recovery makes of it.

 Sector writes are atomic.  The log keeps its header in sector `start` and the
 copies in the ten sectors after it.
 */
module FsLog {
  import opened FsBytes

  const LOGSIZE := 10

  type Disk = seq<Sector>

  predicate InLog(start: nat, s: nat) { start <= s <= start + LOGSIZE }

  /** The header sector: the count, then ten destination sectors. */
  function HeaderWords(n: nat, secs: seq<nat>, i: nat): Sector
    requires n < U32 && |secs| == LOGSIZE && i <= LOGSIZE && forall j :: 0 <= j < LOGSIZE ==> secs[j] < U32
  {
    if i == 0 then SetWord(ZeroSector(), 0, n) else SetWord(HeaderWords(n, secs, i - 1), i, secs[i - 1])
  }

  predicate Destinations(secs: seq<nat>) { |secs| == LOGSIZE && forall j :: 0 <= j < LOGSIZE ==> secs[j] < U32 }

  function Header(n: nat, secs: seq<nat>): Sector
    requires n < U32 && Destinations(secs)
  {
    HeaderWords(n, secs, LOGSIZE)
  }

  lemma {:induction false} HeaderWordsRead(n: nat, secs: seq<nat>, i: nat, j: nat)
    requires n < U32 && Destinations(secs) && j <= i <= LOGSIZE
    ensures Word(HeaderWords(n, secs, i), j) == if j == 0 then n else secs[j - 1]
  {
    if i == 0 {
      WordOfSetWord(ZeroSector(), 0, n, 0);
    } else {
      WordOfSetWord(HeaderWords(n, secs, i - 1), i, secs[i - 1], j);
      if j < i { HeaderWordsRead(n, secs, i - 1, j); }
    }
  }

  /** write_head then read_head gives the header back. */
  lemma HeaderRoundTrip(n: nat, secs: seq<nat>)
    requires n < U32 && Destinations(secs)
    ensures Word(Header(n, secs), 0) == n
    ensures forall j :: 0 <= j < LOGSIZE ==> Word(Header(n, secs), 1 + j) == secs[j]
  {
    HeaderWordsRead(n, secs, LOGSIZE, 0);
    forall j | 0 <= j < LOGSIZE ensures Word(Header(n, secs), 1 + j) == secs[j] {
      HeaderWordsRead(n, secs, LOGSIZE, 1 + j);
    }
  }

  // ---- the disk after each write of commit and of recovery ---------------------------

  /** The log fits on the disk. */
  predicate Area(d: Disk, start: nat) { start + LOGSIZE < |d| <= U32 }

  /** n destinations on the disk and outside the log. */
  predicate Targets(d: Disk, start: nat, n: nat, secs: seq<nat>)
  {
    Area(d, start) && n <= LOGSIZE && Destinations(secs) && forall j :: 0 <= j < n ==>
        secs[j] < |d| && !InLog(start, secs[j])
  }

  /** write_log after i copies. */
  function Copied(d: Disk, start: nat, n: nat, secs: seq<nat>, i: nat): (d': Disk)
    requires Targets(d, start, n, secs) && i <= n
    ensures |d'| == |d|
  {
    if i == 0 then d else
      var d1 := Copied(d, start, n, secs, i - 1);
      d1[start + i := d1[secs[i - 1]]]
  }

  /** install_trans after i copies. */
  function Installed(d: Disk, start: nat, n: nat, secs: seq<nat>, i: nat): (d': Disk)
    requires Targets(d, start, n, secs) && i <= n
    ensures |d'| == |d|
  {
    if i == 0 then d else
      var d1 := Installed(d, start, n, secs, i - 1);
      d1[secs[i - 1] := d1[start + i]]
  }

  /** The disk after k of the 2 n + 2 writes of commit. */
  function CommitPoint(d: Disk, start: nat, n: nat, secs: seq<nat>, k: nat): (d': Disk)
    requires Targets(d, start, n, secs) && 0 < n && k <= 2 * n + 2
    ensures |d'| == |d|
  {
    if k <= n then Copied(d, start, n, secs, k) else
      var d1 := Copied(d, start, n, secs, n)[start := Header(n, secs)];
      if k <= 2 * n + 1 then Installed(d1, start, n, secs, k - n - 1)
      else Installed(d1, start, n, secs, n)[start := Header(0, secs)]
  }

  function HeadCount(d: Disk, start: nat): nat
    requires Area(d, start)
  {
    Word(d[start], 0)
  }

  /** read_head: the first n destinations come from disk, the rest stay as they were. */
  function ReadSectors(d: Disk, start: nat, old': seq<nat>): seq<nat>
    requires Area(d, start) && |old'| == LOGSIZE
  {
    seq(LOGSIZE, j requires 0 <= j < LOGSIZE => if j < HeadCount(d, start) then Word(d[start], 1 + j) else old'[j])
  }

  /** What recovery reads after a restart, when the header in memory starts as zeros. */
  function BootSectors(d: Disk, start: nat): seq<nat>
    requires Area(d, start)
  {
    ReadSectors(d, start, seq(LOGSIZE, _ => 0))
  }

  /** A header that recovery can act on: clear, or naming good destinations. */
  predicate Recoverable(d: Disk, start: nat)
  {
    Area(d, start) && HeadCount(d, start) <= LOGSIZE && Targets(d, start, HeadCount(d, start), BootSectors(d, start))
  }

  /** The disk after k of the writes of recovery; a clear header means there are none. */
  function RecoverPoint(d: Disk, start: nat, k: nat): (d': Disk)
    requires Recoverable(d, start)
    ensures |d'| == |d|
  {
    var n := HeadCount(d, start);
    var secs := BootSectors(d, start);
    if n == 0 then d
    else if k <= n then Installed(d, start, n, secs, k)
    else Installed(d, start, n, secs, n)[start := Header(0, secs)]
  }

  function Recovered(d: Disk, start: nat): Disk
    requires Recoverable(d, start)
  {
    RecoverPoint(d, start, HeadCount(d, start) + 1)
  }

  // ---- the invariant of crash states ---------------------------------------------------

  /** d agrees with base outside the log, and a set header describes copies of base. */
  ghost predicate Consistent(d: Disk, base: Disk, start: nat)
  {
    && Recoverable(d, start) && |d| == |base|
    && (forall s :: 0 <= s < |d| && !InLog(start, s) ==> d[s] == base[s])
    && (forall j :: 0 <= j < HeadCount(d, start) ==> d[start + 1 + j] == base[BootSectors(d, start)[j]])
  }

  lemma {:induction false} CopiedFacts(d: Disk, start: nat, n: nat, secs: seq<nat>, i: nat)
    requires Targets(d, start, n, secs) && i <= n
    ensures forall s :: 0 <= s < |d| && !InLog(start, s) ==> Copied(d, start, n, secs, i)[s] == d[s]
    ensures Copied(d, start, n, secs, i)[start] == d[start]
    ensures forall j :: 0 <= j < i ==> Copied(d, start, n, secs, i)[start + 1 + j] == d[secs[j]]
  {
    if i > 0 { CopiedFacts(d, start, n, secs, i - 1); }
  }

  /** Installing copies of base over base changes nothing. */
  lemma {:induction false} InstalledFacts(d: Disk, base: Disk, start: nat, n: nat, secs: seq<nat>, i: nat)
    requires Targets(d, start, n, secs) && i <= n && |base| == |d|
    requires forall s :: 0 <= s < |d| && !InLog(start, s) ==> d[s] == base[s]
    requires forall j :: 0 <= j < n ==> d[start + 1 + j] == base[secs[j]]
    ensures Installed(d, start, n, secs, i) == d
  {
    if i > 0 {
      InstalledFacts(d, base, start, n, secs, i - 1);
      assert d[start + 1 + (i - 1)] == base[secs[i - 1]];
    }
  }

  /** A disk with a clear header agrees with itself. */
  lemma ClearIsConsistent(d: Disk, base: Disk, start: nat)
    requires Area(d, start) && |d| == |base| && HeadCount(d, start) == 0
    requires forall s :: 0 <= s < |d| && !InLog(start, s) ==> d[s] == base[s]
    ensures Consistent(d, base, start)
  {}

  lemma HeadWritten(d: Disk, start: nat, n: nat, secs: seq<nat>)
    requires Area(d, start) && n <= LOGSIZE && Destinations(secs)
    ensures HeadCount(d[start := Header(n, secs)], start) == n
    ensures forall j :: 0 <= j < n ==> BootSectors(d[start := Header(n, secs)], start)[j] == secs[j]
  {
    HeaderRoundTrip(n, secs);
    hide Header;
  }

  /** Every disk state of a commit is consistent with the disk it began on. */
  lemma CommitIsConsistent(d: Disk, start: nat, n: nat, secs: seq<nat>, k: nat)
    requires Targets(d, start, n, secs) && 0 < n && k <= 2 * n + 2 && HeadCount(d, start) == 0
    ensures Consistent(CommitPoint(d, start, n, secs, k), d, start)
    ensures k == 2 * n + 2 ==> HeadCount(CommitPoint(d, start, n, secs, k), start) == 0
  {
    if k <= n {
      CopiedFacts(d, start, n, secs, k);
      ClearIsConsistent(Copied(d, start, n, secs, k), d, start);
    } else {
      CopiedFacts(d, start, n, secs, n);
      var c := Copied(d, start, n, secs, n);
      HeadWritten(c, start, n, secs);
      var d1 := c[start := Header(n, secs)];
      hide Header, Copied;
      InstalledFacts(d1, d, start, n, secs, if k <= 2 * n + 1 then k - n - 1 else n);
      if k == 2 * n + 2 {
        HeadWritten(d1, start, 0, secs);
        ClearIsConsistent(d1[start := Header(0, secs)], d, start);
      } else {
        CommittedIsConsistent(d1, d, start, n, secs);
      }
    }
  }

  lemma CommittedIsConsistent(d1: Disk, base: Disk, start: nat, n: nat, secs: seq<nat>)
    requires Targets(d1, start, n, secs) && |d1| == |base| && HeadCount(d1, start) == n
    requires forall j :: 0 <= j < n ==> BootSectors(d1, start)[j] == secs[j]
    requires forall s :: 0 <= s < |d1| && !InLog(start, s) ==> d1[s] == base[s]
    requires forall j :: 0 <= j < n ==> d1[start + 1 + j] == base[secs[j]]
    ensures Consistent(d1, base, start)
  {
    BootDestinations(d1, start);
  }

  lemma BootDestinations(d: Disk, start: nat)
    requires Area(d, start)
    ensures Destinations(BootSectors(d, start))
  {
    var secs := BootSectors(d, start);
    forall j | 0 <= j < LOGSIZE ensures secs[j] < U32 {
      assert secs[j] == 0 || secs[j] == Word(d[start], 1 + j);
    }
  }

  /** Recovery, interrupted anywhere, keeps a consistent disk consistent; complete, it clears the header. */
  lemma RecoverIsConsistent(d: Disk, base: Disk, start: nat, k: nat)
    requires Consistent(d, base, start)
    ensures Consistent(RecoverPoint(d, start, k), base, start)
    ensures HeadCount(Recovered(d, start), start) == 0
  {
    var n, secs := HeadCount(d, start), BootSectors(d, start);
    if n > 0 {
      InstalledFacts(d, base, start, n, secs, if k <= n then k else n);
      InstalledFacts(d, base, start, n, secs, n);
      HeadWritten(d, start, 0, secs);
      ClearIsConsistent(d[start := Header(0, secs)], base, start);
    }
  }

  /** A chain of interrupted recoveries: each begins on the disk the one before left. */
  ghost predicate Interrupted(ds: seq<Disk>, start: nat)
  {
    && ds != []
    && forall i :: 0 <= i < |ds| - 1 ==>
        Recoverable(ds[i], start) && exists k :: ds[i + 1] == RecoverPoint(ds[i], start, k)
  }

  lemma {:induction false} InterruptedIsConsistent(ds: seq<Disk>, base: Disk, start: nat, i: nat)
    requires Interrupted(ds, start) && Consistent(ds[0], base, start) && i < |ds|
    ensures Consistent(ds[i], base, start)
  {
    hide Consistent, RecoverPoint, Recoverable;
    if i > 0 {
      InterruptedIsConsistent(ds, base, start, i - 1);
      var k :| ds[i - 1 + 1] == RecoverPoint(ds[i - 1], start, k);
      RecoverIsConsistent(ds[i - 1], base, start, k);
    }
  }

  /** A crash after any write of commit, then any number of interrupted recoveries, then a
      complete one: every sector outside the log is as it was when commit began, and the
      header is clear again. */
  lemma CrashDuringCommit(d: Disk, start: nat, n: nat, secs: seq<nat>, k: nat, ds: seq<Disk>)
    requires Targets(d, start, n, secs) && 0 < n && k <= 2 * n + 2 && HeadCount(d, start) == 0
    requires Interrupted(ds, start) && ds[0] == CommitPoint(d, start, n, secs, k)
    ensures var last := ds[|ds| - 1];
            && Recoverable(last, start)
            && |last| == |d|
            && HeadCount(Recovered(last, start), start) == 0
            && forall s :: 0 <= s < |d| && !InLog(start, s) ==> Recovered(last, start)[s] == d[s]
  {
    CommitIsConsistent(d, start, n, secs, k);
    InterruptedIsConsistent(ds, d, start, |ds| - 1);
    var last := ds[|ds| - 1];
    RecoverIsConsistent(last, d, start, HeadCount(last, start) + 1);
  }

  // ---- what the log protects -------------------------------------------------------------

  lemma {:induction false} InstalledCopies(d: Disk, base: Disk, start: nat, n: nat, secs: seq<nat>, i: nat, s: nat)
    requires Targets(d, start, n, secs) && i <= n && |base| == |d| && s < |d| && !InLog(start, s)
    requires forall j :: 0 <= j < n ==> d[start + 1 + j] == base[secs[j]]
    ensures (exists j :: 0 <= j < i && secs[j] == s) ==> Installed(d, start, n, secs, i)[s] == base[s]
    ensures (forall j :: 0 <= j < i ==> secs[j] != s) ==> Installed(d, start, n, secs, i)[s] == d[s]
  {
    if i > 0 {
      InstalledCopies(d, base, start, n, secs, i - 1, s);
      InstalledLog(d, start, n, secs, i - 1, start + i);
      assert d[start + 1 + (i - 1)] == base[secs[i - 1]];
    }
  }

  lemma {:induction false} InstalledLog(d: Disk, start: nat, n: nat, secs: seq<nat>, i: nat, s: nat)
    requires Targets(d, start, n, secs) && i <= n && s < |d| && InLog(start, s)
    ensures Installed(d, start, n, secs, i)[s] == d[s]
  {
    if i > 0 { InstalledLog(d, start, n, secs, i - 1, s); }
  }

  /** d' is d except for what the logged sectors hold. */
  ghost predicate HomesDamaged(d: Disk, d': Disk, n: nat, secs: seq<nat>)
    requires n <= |secs|
  {
    |d'| == |d| && forall s :: 0 <= s < |d| && (forall j :: 0 <= j < n ==> secs[j] != s) ==> d'[s] == d[s]
  }

  /** From the header write on, until the header is cleared, the log is a second copy: whatever becomes of
      the logged sectors at home, recovery brings them back as they were when commit began. */
  lemma CommittedSurvives(d: Disk, start: nat, n: nat, secs: seq<nat>, k: nat, d': Disk)
    requires Targets(d, start, n, secs) && 0 < n && n < k <= 2 * n + 1 && HeadCount(d, start) == 0
    requires HomesDamaged(CommitPoint(d, start, n, secs, k), d', n, secs)
    ensures Recoverable(d', start) && HeadCount(d', start) == n
    ensures forall s :: 0 <= s < |d| && !InLog(start, s) ==> Recovered(d', start)[s] == d[s]
  {
    var c := CommitPoint(d, start, n, secs, k);
    CommittedHead(d, start, n, secs, k);
    forall s | 0 <= s < |d| && InLog(start, s) ensures d'[s] == c[s] {
      assert forall j :: 0 <= j < n ==> secs[j] != s;
    }
    assert InLog(start, start);
    var boot := BootSectors(d', start);
    BootDestinations(d', start);
    SameHead(c, d', start);
    hide CommitPoint, BootSectors;
    forall j | 0 <= j < n ensures d'[start + 1 + j] == d[boot[j]] { assert InLog(start, start + 1 + j); }
    forall s | 0 <= s < |d| && !InLog(start, s) ensures Recovered(d', start)[s] == d[s] {
      InstalledCopies(d', d, start, n, boot, n, s);
    }
  }

  lemma SameHead(c: Disk, d: Disk, start: nat)
    requires Area(c, start) && Area(d, start) && c[start] == d[start]
    ensures HeadCount(d, start) == HeadCount(c, start) && BootSectors(d, start) == BootSectors(c, start)
  {}

  /** Once the header is written the log holds the header, the copies and, elsewhere, the disk. */
  lemma CommittedHead(d: Disk, start: nat, n: nat, secs: seq<nat>, k: nat)
    requires Targets(d, start, n, secs) && 0 < n && n < k <= 2 * n + 1 && HeadCount(d, start) == 0
    ensures var c := CommitPoint(d, start, n, secs, k);
            && HeadCount(c, start) == n
            && (forall j :: 0 <= j < n ==> BootSectors(c, start)[j] == secs[j])
            && (forall j :: 0 <= j < n ==> c[start + 1 + j] == d[secs[j]])
            && (forall s :: 0 <= s < |d| && !InLog(start, s) ==> c[s] == d[s])
  {
    CopiedFacts(d, start, n, secs, n);
    var c := Copied(d, start, n, secs, n);
    HeadWritten(c, start, n, secs);
    var d1 := c[start := Header(n, secs)];
    hide Header, Copied, BootSectors, HeadCount;
    InstalledFacts(d1, d, start, n, secs, k - n - 1);
  }

  // ---- recovering again ----------------------------------------------------------------

  lemma {:induction false} InstalledElsewhere(d: Disk, start: nat, n: nat, secs: seq<nat>, i: nat, s: nat)
    requires Targets(d, start, n, secs) && i <= n && s < |d| && forall j :: 0 <= j < i ==> secs[j] != s
    ensures Installed(d, start, n, secs, i)[s] == d[s]
  {
    if i > 0 { InstalledElsewhere(d, start, n, secs, i - 1, s); }
  }

  /** What is installed comes from the log alone: the last copy of a sector wins. */
  lemma {:induction false} InstalledFromLog(d: Disk, d': Disk, start: nat, n: nat, secs: seq<nat>, i: nat, j: nat)
    requires Targets(d, start, n, secs) && Targets(d', start, n, secs) && |d| == |d'| && j < i <= n
    requires forall s :: 0 <= s < |d| && InLog(start, s) ==> d'[s] == d[s]
    ensures Installed(d', start, n, secs, i)[secs[j]] == Installed(d, start, n, secs, i)[secs[j]]
  {
    if secs[i - 1] == secs[j] {
      InstalledLog(d, start, n, secs, i - 1, start + i);
      InstalledLog(d', start, n, secs, i - 1, start + i);
    } else {
      InstalledFromLog(d, d', start, n, secs, i - 1, j);
    }
  }

  lemma InstalledAgain(d: Disk, start: nat, n: nat, secs: seq<nat>, k: nat)
    requires Targets(d, start, n, secs) && k <= n
    ensures Installed(Installed(d, start, n, secs, k), start, n, secs, n) == Installed(d, start, n, secs, n)
  {
    var d' := Installed(d, start, n, secs, k);
    forall s | 0 <= s < |d| && InLog(start, s) ensures d'[s] == d[s] { InstalledLog(d, start, n, secs, k, s); }
    var e, e' := Installed(d, start, n, secs, n), Installed(d', start, n, secs, n);
    forall s | 0 <= s < |d| ensures e'[s] == e[s] {
      if j :| 0 <= j < n && secs[j] == s {
        InstalledFromLog(d, d', start, n, secs, n, j);
      } else {
        InstalledElsewhere(d, start, n, secs, n, s);
        InstalledElsewhere(d', start, n, secs, n, s);
        InstalledElsewhere(d, start, n, secs, k, s);
      }
    }
  }

  /** Whatever the log holds, recovery broken off after any of its writes and begun again ends on the
      disk an undisturbed recovery gives. */
  lemma RecoveryIsIdempotent(d: Disk, start: nat, k: nat)
    requires Recoverable(d, start)
    ensures Recoverable(RecoverPoint(d, start, k), start)
    ensures Recovered(RecoverPoint(d, start, k), start) == Recovered(d, start)
  {
    var n, secs := HeadCount(d, start), BootSectors(d, start);
    if 0 < n && k <= n {
      InstalledLog(d, start, n, secs, k, start);
      InstalledAgain(d, start, n, secs, k);
    } else if 0 < n {
      HeadWritten(Installed(d, start, n, secs, n), start, 0, secs);
      BootDestinations(RecoverPoint(d, start, k), start);
    }
  }

  /** So it does after any number of interrupted recoveries. */
  lemma {:induction false} InterruptedRecovers(ds: seq<Disk>, start: nat, i: nat)
    requires Interrupted(ds, start) && Recoverable(ds[0], start) && i < |ds|
    ensures Recoverable(ds[i], start) && Recovered(ds[i], start) == Recovered(ds[0], start)
  {
    hide RecoverPoint, Recovered, Recoverable;
    if i > 0 {
      InterruptedRecovers(ds, start, i - 1);
      var k :| ds[i - 1 + 1] == RecoverPoint(ds[i - 1], start, k);
      RecoveryIsIdempotent(ds[i - 1], start, k);
    }
  }

  // ---- what the log does not give -------------------------------------------------------

  /** A transaction's sectors are written home before commit copies them. */
  datatype HomeWrite = HomeWrite(sector: nat, data: Sector)

  function AfterWrites(d: Disk, ws: seq<HomeWrite>): (d': Disk)
    requires forall i :: 0 <= i < |ws| ==> ws[i].sector < |d|
    ensures |d'| == |d|
  {
    if ws == [] then d else
      var k := |ws| - 1;
      AfterWrites(d, ws[..k])[ws[k].sector := ws[k].data]
  }

  /** The transaction as a set of updates: distinct sectors outside the log, each really changed. */
  ghost predicate Updates(d: Disk, start: nat, ws: seq<HomeWrite>)
  {
    && (forall i :: 0 <= i < |ws| ==>
        ws[i].sector < |d| && !InLog(start, ws[i].sector) && d[ws[i].sector] != ws[i].data)
    && (forall i, j :: 0 <= i < j < |ws| ==> ws[i].sector != ws[j].sector)
  }

  lemma {:induction false} AfterWritesAt(d: Disk, start: nat, ws: seq<HomeWrite>, i: nat)
    requires Updates(d, start, ws) && i < |ws|
    ensures forall j :: 0 <= j <= |ws| ==> forall x :: 0 <= x < j ==> ws[..j][x].sector < |d|
    ensures AfterWrites(d, ws)[ws[i].sector] == ws[i].data
  {
    var k := |ws| - 1;
    if i < k { AfterWritesAt(d, start, ws[..k], i); }
  }

  lemma {:induction false} AfterWritesElsewhere(d: Disk, ws: seq<HomeWrite>, s: nat)
    requires (forall i :: 0 <= i < |ws| ==> ws[i].sector < |d|) && s < |d| && forall i :: 0 <= i < |ws| ==>
             ws[i].sector != s
    ensures AfterWrites(d, ws)[s] == d[s]
  {
    if ws != [] { AfterWritesElsewhere(d, ws[..|ws| - 1], s); }
  }

  /** A transaction's writes to sectors of the disk outside the log. */
  predicate HomeWrites(d: Disk, start: nat, ws: seq<HomeWrite>)
  {
    forall i :: 0 <= i < |ws| ==> ws[i].sector < |d| && !InLog(start, ws[i].sector)
  }

  /** A disk a crash can leave: after some of the transaction's writes home, or after some of the writes
      of the commit that follows, for any n logged sectors. */
  ghost predicate CrashPoint(d: Disk, start: nat, ws: seq<HomeWrite>, n: nat, secs: seq<nat>, c: Disk)
    requires HomeWrites(d, start, ws) && Targets(d, start, n, secs)
  {
    || (exists j :: 0 <= j <= |ws| && c == AfterWrites(d, ws[..j]))
    || (0 < n && exists k :: 0 <= k <= 2 * n + 2 && c == CommitPoint(AfterWrites(d, ws), start, n, secs, k))
  }

  /** The same contents outside the log. */
  ghost predicate SameOutside(d: Disk, d': Disk, start: nat)
  {
    |d| == |d'| && forall s :: 0 <= s < |d| && !InLog(start, s) ==> d[s] == d'[s]
  }

  /** All or nothing: a crash at any point, and any number of interrupted recoveries after it, recover to
      the state before or after the transaction. */
  ghost predicate AllOrNothing(d: Disk, start: nat, ws: seq<HomeWrite>, n: nat, secs: seq<nat>)
    requires HomeWrites(d, start, ws) && Targets(d, start, n, secs)
  {
    forall ds :: Interrupted(ds, start) && CrashPoint(d, start, ws, n, secs, ds[0]) ==>
      && Recoverable(ds[|ds| - 1], start)
      && var r := Recovered(ds[|ds| - 1], start);
         SameOutside(r, d, start) || SameOutside(r, AfterWrites(d, ws), start)
  }

  /** A crash leaves the disk consistent with the first j writes of the transaction, for some j. */
  lemma CrashBase(d: Disk, start: nat, ws: seq<HomeWrite>, n: nat, secs: seq<nat>, c: Disk) returns (j: nat)
    requires HomeWrites(d, start, ws) && Targets(d, start, n, secs) && HeadCount(d, start) == 0
    requires CrashPoint(d, start, ws, n, secs, c)
    ensures j <= |ws| && Consistent(c, AfterWrites(d, ws[..j]), start)
  {
    assert InLog(start, start);
    if i :| 0 <= i <= |ws| && c == AfterWrites(d, ws[..i]) {
      j := i;
      AfterWritesElsewhere(d, ws[..j], start);
      ClearIsConsistent(c, c, start);
    } else {
      j := |ws|;
      assert ws[..j] == ws;
      AfterWritesElsewhere(d, ws, start);
      var k :| 0 <= k <= 2 * n + 2 && c == CommitPoint(AfterWrites(d, ws), start, n, secs, k);
      CommitIsConsistent(AfterWrites(d, ws), start, n, secs, k);
    }
  }

  /** The promise that a transaction is atomic fails: whatever it logs, it holds exactly for transactions
      of at most one sector.  A crash between two of its writes leaves the first and loses the second. */
  lemma AtomicOnlyForOneSector(d: Disk, start: nat, ws: seq<HomeWrite>, n: nat, secs: seq<nat>)
    requires Updates(d, start, ws) && Targets(d, start, n, secs) && HeadCount(d, start) == 0
    ensures AllOrNothing(d, start, ws, n, secs) <==> |ws| <= 1
  {
    if |ws| <= 1 {
      forall ds | Interrupted(ds, start) && CrashPoint(d, start, ws, n, secs, ds[0])
        ensures Recoverable(ds[|ds| - 1], start)
        ensures var r := Recovered(ds[|ds| - 1], start);
                SameOutside(r, d, start) || SameOutside(r, AfterWrites(d, ws), start)
      {
        var j := CrashBase(d, start, ws, n, secs, ds[0]);
        var base, last := AfterWrites(d, ws[..j]), ds[|ds| - 1];
        InterruptedIsConsistent(ds, base, start, |ds| - 1);
        RecoverIsConsistent(last, base, start, HeadCount(last, start) + 1);
        assert SameOutside(Recovered(last, start), base, start);
        assert if j == 0 then base == d else ws[..j] == ws;
      }
    } else {
      TornBetween(d, start, ws);
      var c := AfterWrites(d, ws[..1]);
      assert CrashPoint(d, start, ws, n, secs, c);
      assert Interrupted([c], start) && [c][0] == c;
    }
  }

  /** A crash after the first of several writes recovers to neither state. */
  lemma TornBetween(d: Disk, start: nat, ws: seq<HomeWrite>)
    requires Updates(d, start, ws) && Area(d, start) && HeadCount(d, start) == 0 && |ws| > 1
    ensures Recoverable(AfterWrites(d, ws[..1]), start)
    ensures !SameOutside(Recovered(AfterWrites(d, ws[..1]), start), d, start)
    ensures !SameOutside(Recovered(AfterWrites(d, ws[..1]), start), AfterWrites(d, ws), start)
  {
    assert InLog(start, start) && Updates(d, start, ws[..1]);
    AfterWritesElsewhere(d, ws[..1], start);
    AfterWritesAt(d, start, ws[..1], 0);
    AfterWritesElsewhere(d, ws[..1], ws[1].sector);
    AfterWritesAt(d, start, ws, 1);
  }

  // ---- the log as it runs ----------------------------------------------------------------

  function NoSectors(): seq<nat> { seq(LOGSIZE, _ => 0) }

  /** The disk after each of commit's writes, in order. */
  ghost function CommitWrites(d: Disk, start: nat, n: nat, secs: seq<nat>, k: nat): seq<Disk>
    requires Targets(d, start, n, secs) && 0 < n && k <= 2 * n + 2
  {
    seq(k, i requires 0 <= i < k => CommitPoint(d, start, n, secs, i + 1))
  }

  /** The disk after each of recovery's writes, in order. */
  ghost function RecoverWrites(d: Disk, start: nat, k: nat): seq<Disk>
    requires Recoverable(d, start)
  {
    seq(k, i requires 0 <= i < k => RecoverPoint(d, start, i + 1))
  }

  lemma CommitWritesNext(d: Disk, start: nat, n: nat, secs: seq<nat>, k: nat)
    requires Targets(d, start, n, secs) && 0 < n && k < 2 * n + 2
    ensures CommitWrites(d, start, n, secs, k + 1) == CommitWrites(d, start, n, secs,
            k) + [CommitPoint(d, start, n, secs, k + 1)]
  {}

  ghost function InstallWrites(d: Disk, start: nat, n: nat, secs: seq<nat>, k: nat): seq<Disk>
    requires Targets(d, start, n, secs) && k <= n
  {
    seq(k, i requires 0 <= i < k => Installed(d, start, n, secs, i + 1))
  }

  lemma InstallWritesNext(d: Disk, start: nat, n: nat, secs: seq<nat>, k: nat)
    requires Targets(d, start, n, secs) && k < n
    ensures InstallWrites(d, start, n, secs, k + 1) == InstallWrites(d, start, n, secs,
            k) + [Installed(d, start, n, secs, k + 1)]
  {}

  lemma CommitTrace(d: Disk, start: nat, n: nat, secs: seq<nat>)
    requires Targets(d, start, n, secs) && 0 < n
    ensures var d1 := CommitPoint(d, start, n, secs, n + 1);
            && d1 == CommitPoint(d, start, n, secs, n)[start := Header(n, secs)]
            && Targets(d1, start, n, secs)
            && CommitWrites(d, start, n, secs, 2 * n + 2)
               == CommitWrites(d, start, n, secs, n) + [d1] + InstallWrites(d1, start, n, secs,
                   n) + [CommitPoint(d, start, n, secs, 2 * n + 2)]
            && CommitPoint(d, start, n, secs, 2 * n + 2) == Installed(d1, start, n, secs, n)[start := Header(0, secs)]
  {
    hide Copied, Header, InLog;
    var d1 := CommitPoint(d, start, n, secs, n + 1);
    assert Targets(d1, start, n, secs);
    var all := CommitWrites(d, start, n, secs, 2 * n + 2);
    var a, b := CommitWrites(d, start, n, secs, n), InstallWrites(d1, start, n, secs, n);
    var c := a + [d1] + b + [CommitPoint(d, start, n, secs, 2 * n + 2)];
    forall i | 0 <= i < |all| ensures all[i] == c[i] {
      if n < i <= 2 * n { assert c[i] == b[i - n - 1]; }
    }
  }

  lemma RecoverTrace(d: Disk, start: nat)
    requires Recoverable(d, start) && HeadCount(d, start) > 0
    ensures var n, secs := HeadCount(d, start), BootSectors(d, start);
            RecoverWrites(d, start, n + 1) == InstallWrites(d, start, n, secs, n) + [Recovered(d, start)]
  {
    hide Installed, Header, BootSectors, HeadCount;
  }

  class Log {
    var disk: Disk
    const start: nat
    var n: nat
    var sectors: seq<nat>
    ghost var writes: seq<Disk>  // the disk after every device write so far

    ghost predicate WellFormed() reads this { Area(disk, start) && n <= LOGSIZE && Destinations(sectors) }

    /** At most LOGSIZE sectors, none twice. */
    ghost predicate Valid() reads this
    {
      && WellFormed()
      && forall i, j :: 0 <= i < j < n ==> sectors[i] != sectors[j]
    }

    constructor (disk: Disk, start: nat)
      requires Recoverable(disk, start)
      ensures Valid() && this.start == start && n == 0
      ensures this.disk == Recovered(disk, start)
      ensures writes == RecoverWrites(disk, start, if HeadCount(disk, start) == 0 then 0
                                      else HeadCount(disk, start) + 1)
    {
      this.disk, this.start, this.n, this.sectors, this.writes := disk, start, 0, NoSectors(), [];
      new;
      Recover();
    }

    method DeviceWrite(s: nat, data: Sector)
      requires s < |disk|
      modifies this
      ensures disk == old(disk)[s := data] && writes == old(writes) + [disk]
      ensures n == old(n) && sectors == old(sectors)
    {
      disk := disk[s := data];
      writes := writes + [disk];
    }

    /** A full header refuses even a sector it already holds; otherwise the sector is in the
        header afterwards, once. */
    method LogWrite(sector: nat) returns (ok: bool)
      requires Valid() && sector < U32
      modifies this`n, this`sectors
      ensures Valid() && ok == (old(n) < LOGSIZE)
      ensures ok ==> forall s :: s in sectors[..n] <==> s == sector || s in old(sectors[..n])
      ensures old(sectors[..n]) <= sectors[..n]
      ensures !ok || sector in old(sectors[..n]) ==> n == old(n) && sectors == old(sectors)
    {
      ok := n < LOGSIZE;
      if !ok { return; }
      for i := 0 to n
        invariant n == old(n) && sectors == old(sectors)
        invariant sector !in sectors[..i]
      {
        if sectors[i] == sector {
          assert sectors[..n][i] == sector;
          return;
        }
      }
      sectors := sectors[n := sector];
      n := n + 1;
      assert sectors[..n] == old(sectors[..n]) + [sector];
    }

    method WriteHead()
      requires WellFormed()
      modifies this
      ensures n == old(n) && sectors == old(sectors)
      ensures disk == old(disk)[start := Header(n, sectors)] && writes == old(writes) + [disk]
    {
      var buf := SetWord(ZeroSector(), 0, n);
      for i := 0 to LOGSIZE
        invariant n == old(n) && sectors == old(sectors) && disk == old(disk) && writes == old(writes)
        invariant buf == HeaderWords(n, sectors, i)
      {
        buf := SetWord(buf, 1 + i, sectors[i]);
      }
      DeviceWrite(start, buf);
    }

    method ReadHead()
      requires WellFormed() && HeadCount(disk, start) <= LOGSIZE
      modifies this`n, this`sectors
      ensures n == HeadCount(disk, start) && sectors == ReadSectors(disk, start, old(sectors))
    {
      var buf := disk[start];
      n := Word(buf, 0);
      ghost var was := sectors;
      for i := 0 to if n < LOGSIZE then n else LOGSIZE
        invariant n == HeadCount(disk, start) && |sectors| == LOGSIZE
        invariant forall j :: 0 <= j < LOGSIZE ==> sectors[j] == if j < i then Word(buf, 1 + j) else was[j]
      {
        sectors := sectors[i := Word(buf, 1 + i)];
      }
    }

    method WriteLog()
      requires Valid() && Targets(disk, start, n, sectors) && 0 < n
      modifies this
      ensures n == old(n) && sectors == old(sectors)
      ensures disk == CommitPoint(old(disk), start, n, sectors, n)
      ensures writes == old(writes) + CommitWrites(old(disk), start, n, sectors, n)
    {
      ghost var d := disk;
      for i := 0 to n
        invariant n == old(n) && sectors == old(sectors) && Targets(d, start, n, sectors)
        invariant disk == Copied(d, start, n, sectors, i)
        invariant writes == old(writes) + CommitWrites(d, start, n, sectors, i)
      {
        var buf := disk[sectors[i]];
        DeviceWrite(start + 1 + i, buf);
        CommitWritesNext(d, start, n, sectors, i);
      }
    }

    method InstallTrans()
      requires WellFormed() && Targets(disk, start, n, sectors)
      modifies this
      ensures n == old(n) && sectors == old(sectors)
      ensures disk == Installed(old(disk), start, n, sectors, n)
      ensures writes == old(writes) + InstallWrites(old(disk), start, n, sectors, n)
    {
      ghost var d := disk;
      for i := 0 to n
        invariant n == old(n) && sectors == old(sectors) && Targets(d, start, n, sectors)
        invariant disk == Installed(d, start, n, sectors, i)
        invariant writes == old(writes) + InstallWrites(d, start, n, sectors, i)
      {
        var buf := disk[start + 1 + i];
        DeviceWrite(sectors[i], buf);
        InstallWritesNext(d, start, n, sectors, i);
      }
    }

    /** The 2 n + 2 device writes of a commit are exactly the points of the crash argument. */
    method Commit()
      requires Valid() && Targets(disk, start, n, sectors)
      modifies this
      ensures Valid() && n == 0 && sectors == old(sectors)
      ensures old(n) == 0 ==> disk == old(disk) && writes == old(writes)
      ensures old(n) > 0 ==>
        && disk == CommitPoint(old(disk), start, old(n), sectors, 2 * old(n) + 2)
        && writes == old(writes) + CommitWrites(old(disk), start, old(n), sectors, 2 * old(n) + 2)
    {
      if n == 0 { return; }
      CommitTrace(disk, start, n, sectors);
      hide CommitPoint, CommitWrites, InstallWrites, Header;
      WriteLog();
      WriteHead();
      InstallTrans();
      n := 0;
      WriteHead();
    }

    /** Run at start-up, on the zeroed header. */
    method Recover()
      requires Valid() && n == 0 && sectors == NoSectors() && Recoverable(disk, start)
      modifies this
      ensures Valid() && n == 0
      ensures disk == Recovered(old(disk), start)
      ensures writes == old(writes) +
          RecoverWrites(old(disk), start, if HeadCount(old(disk), start) == 0 then 0
                        else HeadCount(old(disk), start) + 1)
    {
      BootDestinations(disk, start);
      ReadHead();
      if n > 0 {
        RecoverTrace(disk, start);
        hide RecoverWrites, InstallWrites, Header;
        InstallTrans();
        n := 0;
        WriteHead();
      }
    }
  }
}
