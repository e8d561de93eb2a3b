/**
 Runs of the pager: evictions, reloads, user writes, accessed bits set and cleared, and pages coming
 and going, in any order.
 */
module VmRun {
  import opened VmFrame
  import opened VmPage
  import opened VmLife
  import opened FsBytes

  datatype Op =
    | Evict(hand: nat, loc: Location)
    | Load(key: Key, kpage: nat)
    | Write(key: Key, bytes: Page)
    | Marks
    | Scratch(kpage: nat, bytes: Page)   // a page that belongs to no frame
    | Cycle(life: Life)

  /** The state once the user has written the page. */
  ghost function UserWritten(s: State, k: Key, p: Page): State
    requires k in s.ptes
  {
    s.(ptes := s.ptes[k := s.ptes[k].(accessed := true, dirty := true)], pages := s.pages[s.ptes[k].kpage := p])
  }

  ghost predicate Step(s: State, op: Op, s': State, files: Files)
  {
    match op
    case Evict(hand, loc) => hand < |s.frames| && !Stuck(s, hand) && EvictedTo(s, s', hand, loc)
    case Load(k, kpage) =>
      && k in s.spt && s.spt[k].location != InMemory && kpage !in s.index
      && (s.spt[k].location.InSwap? ==> SECTORS_PER_PAGE * s.spt[k].location.slot + SECTORS_PER_PAGE <= |s.device|)
      && s' == Mapped(s, k, kpage, Held(k, s.spt, s.ptes, s.pages, s.device, files))
    case Write(k, p) => k in s.spt && s.spt[k].location == InMemory && k in s.ptes && s' == UserWritten(s, k, p)
    case Marks => Marked(s, s')
    case Scratch(kpage, p) => kpage !in s.index && s' == s.(pages := s.pages[kpage := p])
    case Cycle(l) => LifeStep(s, l, s')
  }

  ghost predicate Run(ss: seq<State>, ops: seq<Op>, files: Files)
  {
    |ss| == |ops| + 1 && forall i :: 0 <= i < |ops| ==> Step(ss[i], ops[i], ss[i + 1], files)
  }

  /** Some run leads from s to s'. */
  ghost predicate Reaches(s: State, s': State, files: Files)
  {
    exists ss, ops :: Run(ss, ops, files) && ss[0] == s && ss[|ops|] == s'
  }

  lemma ReachesBy(s: State, op: Op, s': State, files: Files)
    requires Step(s, op, s', files)
    ensures Reaches(s, s', files)
  {
    assert Run([s, s'], [op], files);
  }

  lemma ReachesOn(s: State, s': State, op: Op, s'': State, files: Files)
    requires Reaches(s, s', files) && Step(s', op, s'', files)
    ensures Reaches(s, s'', files)
  {
    hide Step;
    var ss, ops :| Run(ss, ops, files) && ss[0] == s && ss[|ops|] == s';
    assert Run(ss + [s''], ops + [op], files);
  }

  // ---- the tables ---------------------------------------------------------------------------------

  lemma WrittenFramesOk(s: State, k: Key, p: Page)
    requires Ok(s) && k in s.spt && s.spt[k].location == InMemory
    ensures k in s.ptes && Ok(UserWritten(s, k, p))
  {
    var s' := UserWritten(s, k, p);
    forall m | m in s'.ptes ensures s'.ptes[m].kpage in s'.index && OwnFrame(s'.frames, s'.index, s'.ptes, m) {
      assert OwnFrame(s.frames, s.index, s.ptes, m);
    }
  }

  lemma StepKeepsTables(s: State, op: Op, s': State, files: Files)
    requires Ok(s) && Step(s, op, s', files)
    ensures Ok(s')
  {
    match op
    case Evict(hand, loc) => EvictedOk(s, s', hand, loc);
    case Load(k, kpage) => MappedOk(s, k, kpage, Held(k, s.spt, s.ptes, s.pages, s.device, files));
    case Write(k, p) => WrittenFramesOk(s, k, p);
    case Marks => MarkedOk(s, s');
    case Scratch(kpage, p) => FreePageWritten(s, kpage, p, files);
    case Cycle(l) => LifeKeepsTables(s, l, s');
  }

  /** In every run the tables stay consistent: every slot an entry names is reserved and named by no
      other entry, every page in memory has a frame of its own, and every page in swap the page table
      its mapping needs. */
  lemma {:induction false} RunKeepsTables(ss: seq<State>, ops: seq<Op>, files: Files, i: nat)
    requires Run(ss, ops, files) && i < |ss| && Ok(ss[0])
    ensures Ok(ss[i]) && SwapOk(ss[i].spt, ss[i].slots, ss[i].device) && TablesOk(ss[i].ptes, ss[i].spt, ss[i].tables)
  {
    if i > 0 {
      RunKeepsTables(ss, ops, files, i - 1);
      hide Ok, Step;
      assert Step(ss[i - 1], ops[i - 1], ss[i], files);
      StepKeepsTables(ss[i - 1], ops[i - 1], ss[i], files);
      OkSwap(ss[i]);
    }
  }

  lemma OkSwap(s: State)
    requires Ok(s)
    ensures SwapOk(s.spt, s.slots, s.device) && TablesOk(s.ptes, s.spt, s.tables)
  {}

  // ---- the bytes of one page --------------------------------------------------------------------

  /** The step throws the page out while it is clean. */
  ghost predicate CleanlyEvicts(s: State, op: Op, k: Key)
  {
    op.Evict? && op.hand < |s.frames| && KeyOf(s.frames[op.hand]) == k && !Dirty(s.ptes, k)
  }

  predicate Writes(op: Op, k: Key) { op.Write? && op.key == k }

  /** The step takes the page's entry away. */
  predicate Ending(op: Op, k: Key) { op.Cycle? && Ends(op.life, k) }

  /** The page's entry stands through the first i steps. */
  predicate Stands(ops: seq<Op>, k: Key, i: nat) { forall j :: 0 <= j < i && j < |ops| ==> !Ending(ops[j], k) }

  /** Entries change in their location only. */
  ghost predicate SameEntry(s: State, s': State, k: Key)
  {
    k in s.spt && k in s'.spt && s'.spt[k] == s.spt[k].(location := s'.spt[k].location)
  }

  lemma StepKeepsEntry(s: State, op: Op, s': State, k: Key, files: Files)
    requires Step(s, op, s', files) && k in s.spt && !Ending(op, k)
    ensures SameEntry(s, s', k)
  {
    if op.Cycle? { LifeKeepsEntry(s, op.life, s', k); }
  }

  lemma WrittenBytes(s: State, k: Key, p: Page, m: Key, files: Files)
    requires Ok(s) && k in s.spt && s.spt[k].location == InMemory && m in s.spt
    ensures k in s.ptes && Ok(UserWritten(s, k, p))
    ensures PageBytes(UserWritten(s, k, p), m, files) == if m == k then p else PageBytes(s, m, files)
  {
    hide Ok, SlotPage, FileBytes;
    WrittenFramesOk(s, k, p);
    Locatable(s, k);
    Locatable(s, m);
    Locatable(UserWritten(s, k, p), m);
    if m != k && s.spt[m].location == InMemory {
      OwnPage(s, m);
      OwnPage(s, k);
    }
  }

  /** What one step does to the bytes of a page. */
  lemma StepBytes(s: State, op: Op, s': State, k: Key, files: Files)
    requires Ok(s) && Ok(s') && Step(s, op, s', files) && k in s.spt && !Ending(op, k)
    ensures SameEntry(s, s', k)
    ensures PageBytes(s', k, files) ==
            if Writes(op, k) then op.bytes
            else if CleanlyEvicts(s, op, k) then Reloaded(s.spt[k], files)
            else PageBytes(s, k, files)
  {
    StepKeepsEntry(s, op, s', k, files);
    match op
    case Evict(hand, loc) => EvictionBytes(s, s', hand, loc, k, files);
    case Load(m, kpage) =>
      Locatable(s, m);
      MappedSameBytes(s, m, kpage, PageBytes(s, m, files), files);
    case Write(m, p) => WrittenBytes(s, m, p, k, files);
    case Marks => MarkedBytes(s, s', k, files);
    case Scratch(kpage, p) => FreePageWritten(s, kpage, p, files);
    case Cycle(l) => LifeBytes(s, l, s', k, files);
  }

  lemma EvictionBytes(s: State, s': State, hand: nat, loc: Location, k: Key, files: Files)
    requires Ok(s) && Ok(s') && hand < |s.frames| && s.frames[hand].tid in s.hasPd && EvictedTo(s, s', hand, loc) &&
             k in s.spt
    ensures k in s'.spt
    ensures PageBytes(s', k, files) ==
            if KeyOf(s.frames[hand]) == k && !Dirty(s.ptes, k) then Reloaded(s.spt[k], files)
                else PageBytes(s, k, files)
  {
    EvictionKeepsBytes(s, s', hand, loc, k, files);
    if KeyOf(s.frames[hand]) == k && !Dirty(s.ptes, k) {
      ReloadedMoved(s.spt[k], loc, files);
      assert s'.spt[k] == s.spt[k].(location := loc) && loc == CleanLocation(s.spt[k]);
    }
  }

  /** What the page's user has a right to find: the last bytes written, or those at the start. */
  ghost function Intended(ss: seq<State>, ops: seq<Op>, k: Key, i: nat, files: Files): Page
    requires |ss| == |ops| + 1 && i <= |ops| && Ok(ss[0]) && k in ss[0].spt
  {
    if i == 0 then PageBytes(ss[0], k, files)
    else if Writes(ops[i - 1], k) then ops[i - 1].bytes
    else Intended(ss, ops, k, i - 1, files)
  }

  /** The page was thrown out clean since it was last written. */
  ghost predicate Dropped(ss: seq<State>, ops: seq<Op>, k: Key, i: nat)
    requires |ss| == |ops| + 1 && i <= |ops|
  {
    i > 0 && !Writes(ops[i - 1], k) && (CleanlyEvicts(ss[i - 1], ops[i - 1], k) || Dropped(ss, ops, k, i - 1))
  }

  /** In every run, as long as its entry stands, a page holds the last bytes written to it, or, once it was
      thrown out clean since,
      what a reload gives. */
  lemma {:induction false} RunBytes(ss: seq<State>, ops: seq<Op>, files: Files, k: Key, i: nat)
    requires Run(ss, ops, files) && i < |ss| && Ok(ss[0]) && k in ss[0].spt && Stands(ops, k, i)
    ensures Ok(ss[i]) && SameEntry(ss[0], ss[i], k)
    ensures PageBytes(ss[i], k, files) ==
            if Dropped(ss, ops, k, i) then Reloaded(ss[0].spt[k], files) else Intended(ss, ops, k, i, files)
  {
    hide Ok, Step, PageBytes, Reloaded, Ending;
    RunKeepsTables(ss, ops, files, i);
    if i > 0 {
      RunBytes(ss, ops, files, k, i - 1);
      assert Step(ss[i - 1], ops[i - 1], ss[i], files);
      StepBytes(ss[i - 1], ops[i - 1], ss[i], k, files);
      ReloadedMoved(ss[0].spt[k], ss[i - 1].spt[k].location, files);
    }
  }

  /** Bytes are lost exactly when the page was thrown out clean since they were written, and differ
      from what a reload gives. */
  lemma LostIff(ss: seq<State>, ops: seq<Op>, files: Files, k: Key, i: nat)
    requires Run(ss, ops, files) && i < |ss| && Ok(ss[0]) && k in ss[0].spt && Stands(ops, k, i)
    ensures Ok(ss[i]) && k in ss[i].spt
    ensures PageBytes(ss[i], k, files) == Intended(ss, ops, k, i, files) <==>
            !Dropped(ss, ops, k, i) || Intended(ss, ops, k, i, files) == Reloaded(ss[0].spt[k], files)
  {
    hide Ok, PageBytes, Reloaded, Run;
    RunBytes(ss, ops, files, k, i);
  }

  // ---- from a reload to the next eviction -------------------------------------------------------

  ghost predicate AllHomed(spt: map<Key, Entry>) { forall k :: k in spt ==> Homed(spt[k]) }

  lemma StepKeepsHome(s: State, op: Op, s': State, files: Files)
    requires Ok(s) && Step(s, op, s', files) && AllHomed(s.spt)
    ensures AllHomed(s'.spt)
  {
    match op
    case Evict(hand, loc) => EvictedHome(s, s', hand, loc);
    case Cycle(l) => LifeKeepsHome(s, l, s');
    case _ =>
  }

  lemma EvictedHome(s: State, s': State, hand: nat, loc: Location)
    requires hand < |s.frames| && EvictedTo(s, s', hand, loc) && AllHomed(s.spt)
    ensures AllHomed(s'.spt)
  {
    hide IndexOk, Moved, Removed;
  }

  lemma LifeKeepsHome(s: State, l: Life, s': State)
    requires LifeStep(s, l, s') && AllHomed(s.spt)
    ensures AllHomed(s'.spt)
  {}

  /** Every page out of memory and out of swap is where eviction would put it. */
  lemma {:induction false} RunKeepsHome(ss: seq<State>, ops: seq<Op>, files: Files, i: nat)
    requires Run(ss, ops, files) && i < |ss| && Ok(ss[0]) && AllHomed(ss[0].spt)
    ensures AllHomed(ss[i].spt)
  {
    if i > 0 {
      RunKeepsHome(ss, ops, files, i - 1);
      RunKeepsTables(ss, ops, files, i - 1);
      hide Ok, Step, AllHomed;
      assert Step(ss[i - 1], ops[i - 1], ss[i], files);
      StepKeepsHome(ss[i - 1], ops[i - 1], ss[i], files);
    }
  }

  /** The pager after boot: no thread has pages, and no slot is taken. */
  ghost function Boot(pages: map<nat, Page>, slots: nat, device: seq<Sector>): State
  {
    State([], map[], {}, {}, map[], {}, map[], pages, seq(slots, _ => false), device)
  }

  /** Everything reached from there is consistent, with every page out of memory where it belongs. */
  lemma ReachedFromBoot(ss: seq<State>, ops: seq<Op>, files: Files, pages: map<nat, Page>, slots: nat,
                        device: seq<Sector>,
                        i: nat)
    requires Run(ss, ops, files) && i < |ss| && ss[0] == Boot(pages, slots, device)
    requires |device| >= SECTORS_PER_PAGE * slots
    ensures Ok(ss[i]) && AllHomed(ss[i].spt)
  {
    assert Ok(ss[0]);
    RunKeepsTables(ss, ops, files, i);
    RunKeepsHome(ss, ops, files, i);
  }

  ghost predicate Evicts(s: State, op: Op, k: Key)
  {
    op.Evict? && op.hand < |s.frames| && KeyOf(s.frames[op.hand]) == k
  }

  predicate WrittenIn(ops: seq<Op>, k: Key) { exists j :: 0 <= j < |ops| && Writes(ops[j], k) }

  /** A page just reloaded stays in memory, and is dirty exactly when it has been written since. */
  ghost predicate Resident(ss: seq<State>, ops: seq<Op>, k: Key, i: nat)
    requires |ss| == |ops| + 1 && i <= |ops|
  {
    && k in ss[i].spt && ss[i].spt[k].location == InMemory && k in ss[i].ptes
    && (Dirty(ss[i].ptes, k) <==> WrittenIn(ops[..i], k))
  }

  lemma StepResident(s: State, op: Op, s': State, k: Key, files: Files)
    requires Ok(s) && Step(s, op, s', files) && k in s.spt && s.spt[k].location == InMemory && k in s.ptes &&
             !Evicts(s, op, k) && !Ending(op, k)
    ensures k in s'.spt && s'.spt[k].location == InMemory && k in s'.ptes
    ensures Dirty(s'.ptes, k) <==> Dirty(s.ptes, k) || Writes(op, k)
  {
    hide IndexOk, SwapOk, FramesOk, ResidentOk, LifeStep;
    if op.Cycle? { LifeKeepsEntry(s, op.life, s', k); }
  }

  lemma WrittenNext(ops: seq<Op>, k: Key, i: nat)
    requires i < |ops|
    ensures WrittenIn(ops[..i + 1], k) <==> WrittenIn(ops[..i], k) || Writes(ops[i], k)
  {
    if WrittenIn(ops[..i], k) {
      var j :| 0 <= j < i && Writes(ops[..i][j], k);
      assert Writes(ops[..i + 1][j], k);
    }
    if Writes(ops[i], k) { assert Writes(ops[..i + 1][i], k); }
    if WrittenIn(ops[..i + 1], k) {
      var j :| 0 <= j < i + 1 && Writes(ops[..i + 1][j], k);
      if j < i { assert Writes(ops[..i][j], k); }
    }
  }

  lemma {:induction false} StaysResident(ss: seq<State>, ops: seq<Op>, files: Files, k: Key, kpage: nat, i: nat)
    requires Run(ss, ops, files) && 0 < i <= |ops| && Ok(ss[0]) && ops[0] == Load(k, kpage)
    requires Stands(ops, k, i) && forall j :: 0 < j < i ==> !Evicts(ss[j], ops[j], k)
    ensures Resident(ss, ops, k, i)
  {
    hide Ok, Step, Evicts, WrittenIn;
    RunKeepsTables(ss, ops, files, i - 1);
    assert Step(ss[i - 1], ops[i - 1], ss[i], files);
    WrittenNext(ops, k, i - 1);
    if i > 1 {
      StaysResident(ss, ops, files, k, kpage, i - 1);
      StepResident(ss[i - 1], ops[i - 1], ss[i], k, files);
    } else {
      JustLoaded(ss[0], ss[1], k, kpage, files);
      assert !WrittenIn(ops[..0], k) by { NothingWritten(ops, k); }
    }
  }

  lemma JustLoaded(s: State, s': State, k: Key, kpage: nat, files: Files)
    requires Step(s, Load(k, kpage), s', files)
    ensures k in s'.spt && s'.spt[k].location == InMemory && k in s'.ptes && !Dirty(s'.ptes, k)
  {}

  lemma NothingWritten(ops: seq<Op>, k: Key)
    ensures !WrittenIn(ops[..0], k)
  {}

  lemma EvictStep(s: State, op: Op, s': State, k: Key, files: Files)
    requires Ok(s) && Ok(s') && k in s.spt && Step(s, op, s', files) && Evicts(s, op, k)
    ensures k in s'.spt
    ensures PageBytes(s', k, files) == PageBytes(s, k, files) <==>
            Dirty(s.ptes, k) || PageBytes(s, k, files) == Reloaded(s.spt[k], files)
  {
    hide Ok, PageBytes, Reloaded, EvictedTo;
    EvictionKeepsBytes(s, s', op.hand, op.loc, k, files);
  }

  ghost predicate SameAcross(s: State, s': State, k: Key, files: Files)
  {
    Ok(s) && Ok(s') && k in s.spt && k in s'.spt && PageBytes(s', k, files) == PageBytes(s, k, files)
  }

  ghost predicate HoldsReload(s: State, k: Key, files: Files)
  {
    Ok(s) && k in s.spt && PageBytes(s, k, files) == Reloaded(s.spt[k], files)
  }

  /** A page is reloaded, anything happens short of its eviction, and it is evicted.  The eviction
      keeps its bytes exactly when it was written in between, or did not come from swap, or its slot
      held just what a reload gives. */
  lemma LoadThenEvict(ss: seq<State>, ops: seq<Op>, files: Files, k: Key, kpage: nat)
    requires Run(ss, ops, files) && |ops| >= 2 && Ok(ss[0]) && ops[0] == Load(k, kpage)
    requires Evicts(ss[|ops| - 1], ops[|ops| - 1], k)
    requires Stands(ops, k, |ops|) && forall j :: 0 < j < |ops| - 1 ==> !Evicts(ss[j], ops[j], k)
    requires k in ss[0].spt && Homed(ss[0].spt[k])
    ensures Ok(ss[|ops| - 1]) && Ok(ss[|ops|])
    ensures SameAcross(ss[|ops| - 1], ss[|ops|], k, files) <==>
            WrittenIn(ops, k) || !ss[0].spt[k].location.InSwap? || HoldsReload(ss[0], k, files)
  {
    hide Ok, Step, PageBytes, Reloaded, WrittenIn, Homed;
    var n := |ops|;
    RunKeepsTables(ss, ops, files, n);
    StepOf(ss, ops, files, 0);
    StepOf(ss, ops, files, n - 1);
    HomeBytes(ss[0], k, files);
    LoadedFrom(ss[0], ss[1], k, kpage, files);
    BeforeEviction(ss, ops, files, k, kpage);
    EvictStep(ss[n - 1], ops[n - 1], ss[n], k, files);
  }

  lemma StepOf(ss: seq<State>, ops: seq<Op>, files: Files, i: nat)
    requires Run(ss, ops, files) && i < |ops|
    ensures |ss| == |ops| + 1 && Step(ss[i], ops[i], ss[i + 1], files)
  {}

  /** Just before its eviction a reloaded page is dirty exactly when it was written since, and if not
      it holds what was reloaded. */
  lemma BeforeEviction(ss: seq<State>, ops: seq<Op>, files: Files, k: Key, kpage: nat)
    requires Run(ss, ops, files) && |ops| >= 2 && Ok(ss[0]) && k in ss[0].spt && ops[0] == Load(k, kpage)
    requires Evicts(ss[|ops| - 1], ops[|ops| - 1], k)
    requires Stands(ops, k, |ops|) && forall j :: 0 < j < |ops| - 1 ==> !Evicts(ss[j], ops[j], k)
    ensures var s := ss[|ops| - 1];
            && Ok(s) && k in s.spt && (Dirty(s.ptes, k) <==> WrittenIn(ops, k))
            && Reloaded(s.spt[k], files) == Reloaded(ss[0].spt[k], files)
            && (!WrittenIn(ops, k) ==> PageBytes(s, k, files) == PageBytes(ss[0], k, files))
  {
    hide Ok, Step, PageBytes, Reloaded, WrittenIn, Intended, Dropped;
    var n := |ops|;
    RunBytes(ss, ops, files, k, n - 1);
    StaysResident(ss, ops, files, k, kpage, n - 1);
    WrittenNext(ops, k, n - 1);
    assert ops[..n] == ops;
    ReloadedMoved(ss[0].spt[k], ss[n - 1].spt[k].location, files);
    if !WrittenIn(ops[..n - 1], k) { Untouched(ss, ops, k, n - 1, files); }
  }

  lemma LoadedFrom(s: State, s': State, k: Key, kpage: nat, files: Files)
    requires Step(s, Load(k, kpage), s', files)
    ensures k in s.spt && s.spt[k].location != InMemory
  {}

  lemma HomeBytes(s: State, k: Key, files: Files)
    requires Ok(s) && k in s.spt && Homed(s.spt[k])
    ensures s.spt[k].location == OnDisk || s.spt[k].location == Zero ==>
            PageBytes(s, k, files) == Reloaded(s.spt[k], files)
  {}

  /** Not written and not evicted since the start, a page holds what it held there. */
  lemma {:induction false} Untouched(ss: seq<State>, ops: seq<Op>, k: Key, i: nat, files: Files)
    requires |ss| == |ops| + 1 && i <= |ops| && Ok(ss[0]) && k in ss[0].spt && !WrittenIn(ops[..i], k)
    requires forall j :: 0 <= j < i ==> !Evicts(ss[j], ops[j], k)
    ensures !Dropped(ss, ops, k, i) && Intended(ss, ops, k, i, files) == PageBytes(ss[0], k, files)
  {
    if i > 0 {
      WrittenNext(ops, k, i - 1);
      Untouched(ss, ops, k, i - 1, files);
    }
  }

  // ---- a loss -------------------------------------------------------------------------------------

  const STACK: Key := (1, 0)

  /** Thread 1 and its stack page: in the frame of kernel page 7 if there are frames, at loc if not. */
  ghost function OnePage(framed: bool, dirty: bool, loc: Location, p: Page, slot: bool, device: seq<Sector>): State
  {
    State(if framed then [Frame(7, 0, 1, false)] else [], if framed then map[7 := 0] else map[], {1}, {TableOf(STACK)},
          if framed then map[STACK := Pte(7, false, dirty)] else map[], {1},
          map[STACK := Entry(loc, Anonymous, 0, 0, 0, 0)], map[7 := p], [slot], device)
  }

  ghost function EmptySwap(): seq<Sector> { seq(SECTORS_PER_PAGE, _ => ZeroSector()) }

  ghost function SwapWith(p: Page): seq<Sector>
  {
    seq(SECTORS_PER_PAGE, i requires 0 <= i < SECTORS_PER_PAGE => PageSector(p, i))
  }

  lemma StackOk(p: Page)
    ensures Ok(OnePage(true, true, InMemory, p, false, EmptySwap()))
  {}

  lemma StackOut(p: Page, files: Files)
    ensures Step(OnePage(true, true, InMemory, p, false, EmptySwap()), Evict(0, InSwap(0)),
                 OnePage(false, false, InSwap(0), p, true, SwapWith(p)), files)
  {
    var s, s' := OnePage(true, true, InMemory, p, false, EmptySwap()),
        OnePage(false, false, InSwap(0), p, true, SwapWith(p));
    assert SlotWritten(s.device, s'.device, 0, p, SECTORS_PER_PAGE);
    hide SlotWritten, PageSector, EmptySwap, SwapWith;
    assert Removed(s.frames, 0) == [] && s.ptes - {STACK} == map[] && s.index.Keys == {7} && !s.slots[0];
    assert s'.slots == s.slots[0 := true];
  }

  lemma StackBack(p: Page, files: Files)
    ensures Step(OnePage(false, false, InSwap(0), p, true, SwapWith(p)), Load(STACK, 7),
                 OnePage(true, false, InMemory, p, false, SwapWith(p)), files)
  {
    var s := OnePage(false, false, InSwap(0), p, true, SwapWith(p));
    assert SlotWritten(EmptySwap(), s.device, 0, p, SECTORS_PER_PAGE);
    WrittenSlot(EmptySwap(), s.device, 0, p, 0);
    hide SlotWritten, SlotPage, PageSector, SwapWith;
    assert s.slots[0 := false] == [false];
  }

  lemma StackOutAgain(p: Page, device: seq<Sector>, files: Files)
    ensures Step(OnePage(true, false, InMemory, p, false, device), Evict(0, Zero),
                 OnePage(false, false, Zero, p, false, device), files)
  {
    var s := OnePage(true, false, InMemory, p, false, device);
    assert Removed(s.frames, 0) == [] && s.ptes - {STACK} == map[] && s.index.Keys == {7};
  }

  /** A stack page written with anything but zeros, thrown out, reloaded and thrown out again comes
      back as zeros. */
  lemma PageLost(p: Page, files: Files) returns (ss: seq<State>, ops: seq<Op>)
    requires p != ZeroPage()
    ensures Run(ss, ops, files) && |ops| == 3 && Ok(ss[0]) && Ok(ss[3]) && STACK in ss[0].spt && STACK in ss[3].spt
    ensures ss[0].spt[STACK].kind == Anonymous && Dirty(ss[0].ptes, STACK) && !WrittenIn(ops, STACK)
    ensures PageBytes(ss[0], STACK, files) == p && PageBytes(ss[3], STACK, files) == ZeroPage() != p
  {
    hide Ok, Step, SwapWith, EmptySwap;
    ss := [OnePage(true, true, InMemory, p, false, EmptySwap()), OnePage(false, false, InSwap(0), p, true, SwapWith(p)),
           OnePage(true, false, InMemory, p, false, SwapWith(p)), OnePage(false, false, Zero, p, false, SwapWith(p))];
    ops := [Evict(0, InSwap(0)), Load(STACK, 7), Evict(0, Zero)];
    StackOk(p);
    StackOut(p, files);
    StackBack(p, files);
    StackOutAgain(p, SwapWith(p), files);
    RunKeepsTables(ss, ops, files, 3);
  }
}
