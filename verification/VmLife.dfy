/**
 How pages come and go: entries and mappings made for a program, mappings taken back, and what
 exit does to a thread's pages.
 */
module VmLife {
  import opened VmFrame
  import opened VmPage

  datatype Life =
    | NewTable(tid: int)                              // an empty supplementary page table
    | NewEntry(key: Key, entry: Entry)
    | NewMapping(key: Key, kpage: nat, bytes: Page)   // a frame for a page without an entry
    | Unmap(key: Key)                                 // and its frame given back
    | Attach(tid: int)                                // the thread gets its page directory
    | Detach(tid: int)                                // and loses it
    | DropEntries(tid: int)
    | DropTables(tid: int)                            // page tables given back

  /** Out of memory and out of swap, a page is where eviction would put it; so entries are made. */
  predicate Homed(e: Entry) { e.location == OnDisk || e.location == Zero ==> e.location == CleanLocation(e) }

  ghost predicate NoFrame(frames: seq<Frame>, k: Key) { forall i :: 0 <= i < |frames| ==> KeyOf(frames[i]) != k }

  /** Some entry of the thread, outside the keys given, names slot s. */
  ghost predicate Names(spt: map<Key, Entry>, tid: int, except: set<Key>, s: nat)
  {
    exists k :: k in spt && k.0 == tid && k !in except && spt[k].location == InSwap(s)
  }

  /** Exactly the slots named by the thread's entries are freed. */
  ghost predicate SlotsFreed(spt: map<Key, Entry>, tid: int, slots: seq<bool>, slots': seq<bool>)
  {
    |slots'| == |slots| && forall x :: 0 <= x < |slots| ==> (slots'[x] <==> slots[x] && !Names(spt, tid, {}, x))
  }

  ghost function OthersEntries(spt: map<Key, Entry>, tid: int): map<Key, Entry>
  {
    map k | k in spt && k.0 != tid :: spt[k]
  }

  /** The state with the page in frame kpage and mapped there. */
  ghost function WithMapping(s: State, k: Key, kpage: nat, p: Page): State
  {
    s.(frames := s.frames + [Frame(kpage, k.1, k.0, false)], index := s.index[kpage := |s.frames|],
       tables := s.tables + {TableOf(k)}, ptes := s.ptes[k := Pte(kpage, false, false)],
       pages := s.pages[kpage := p])
  }

  /** The state with the page's mapping and frame gone. */
  ghost function Unmapped(s: State, k: Key): State
    requires k in s.ptes && s.ptes[k].kpage in s.index && s.index[s.ptes[k].kpage] < |s.frames|
  {
    var i := s.index[s.ptes[k].kpage];
    s.(frames := SwapRemoved(s.frames, i), index := SwapRemovedIndex(s.frames, s.index, i), ptes := s.ptes - {k})
  }

  ghost predicate LifeStep(s: State, l: Life, s': State)
  {
    match l
    case NewTable(tid) => s' == s.(hasSpt := s.hasSpt + {tid})
    case NewEntry(k, e) =>
      && k !in s.spt && k.0 in s.hasSpt && WfEntry(e) && Homed(e) && !e.location.InSwap?
      && (if e.location == InMemory then k in s.ptes else NoFrame(s.frames, k))
      && s' == s.(spt := s.spt[k := e])
    case NewMapping(k, kpage, p) =>
      k !in s.spt && NoFrame(s.frames, k) && kpage !in s.index && s' == WithMapping(s, k, kpage, p)
    case Unmap(k) =>
      && k !in s.spt && k in s.ptes && s.ptes[k].kpage in s.index && s.index[s.ptes[k].kpage] < |s.frames|
      && s' == Unmapped(s, k)
    case Attach(tid) =>
      && (forall i :: 0 <= i < |s.frames| && s.frames[i].tid == tid ==> KeyOf(s.frames[i]) in s.ptes)
      && s' == s.(hasPd := s.hasPd + {tid})
    case Detach(tid) => s' == s.(hasPd := s.hasPd - {tid})
    case DropEntries(tid) =>
      && SlotsFreed(s.spt, tid, s.slots, s'.slots)
      && s' == s.(hasSpt := s.hasSpt - {tid}, spt := OthersEntries(s.spt, tid), slots := s'.slots)
    case DropTables(tid) =>
      && (forall k :: k in s.ptes || k in s.spt ==> k.0 != tid)
      && s' == s.(tables := set t | t in s.tables && t.0 != tid)
  }

  // ---- the tables ---------------------------------------------------------------------------------

  lemma WithMappingFrames(s: State, k: Key, kpage: nat, p: Page)
    requires Ok(s) && k !in s.spt && NoFrame(s.frames, k) && kpage !in s.index
    ensures var s' := WithMapping(s, k, kpage, p);
            IndexOk(s'.frames, s'.index) && FramesOk(s'.frames, s'.hasPd, s'.ptes, s'.pages)
  {
    hide IndexOk, SwapOk, OwnFrame, TablesOk;
    PushedIndex(s.frames, s.index, Frame(kpage, k.1, k.0, false));
  }

  lemma WithMappingResident(s: State, k: Key, kpage: nat, p: Page)
    requires Ok(s) && k !in s.spt && NoFrame(s.frames, k) && kpage !in s.index
    ensures var s' := WithMapping(s, k, kpage, p); ResidentOk(s'.frames, s'.index, s'.ptes, s'.spt)
  {
    var s' := WithMapping(s, k, kpage, p);
    forall m | m in s'.ptes ensures s'.ptes[m].kpage in s'.index && OwnFrame(s'.frames, s'.index, s'.ptes, m) {
      if m != k { OwnPage(s, m); }
    }
  }

  lemma WithMappingOk(s: State, k: Key, kpage: nat, p: Page)
    requires Ok(s) && k !in s.spt && NoFrame(s.frames, k) && kpage !in s.index
    ensures Ok(WithMapping(s, k, kpage, p))
  {
    hide IndexOk, FramesOk, ResidentOk, SwapOk;
    WithMappingFrames(s, k, kpage, p);
    WithMappingResident(s, k, kpage, p);
  }

  /** The frame of another page is still its frame, at the place of the one that left if it was last. */
  lemma OwnFrameLeft(s: State, k: Key, m: Key)
    requires Ok(s) && k in s.ptes && m in s.ptes && m != k && s.ptes[k].kpage in s.index
    requires s.index[s.ptes[k].kpage] < |s.frames|
    ensures var s' := Unmapped(s, k); s.ptes[m].kpage in s'.index && OwnFrame(s'.frames, s'.index, s'.ptes, m)
  {
    hide FramesOk, SwapOk, TablesOk;
    OwnPage(s, k);
    OwnPage(s, m);
  }

  /** Frames with one swapped out: each is an old one, and none of page k is left. */
  lemma SwappedOut(frames: seq<Frame>, i: nat)
    requires i < |frames| && forall a, b :: 0 <= a < b < |frames| ==> KeyOf(frames[a]) != KeyOf(frames[b])
    ensures var rest := SwapRemoved(frames, i);
            && NoFrame(rest, KeyOf(frames[i])) && (forall j :: 0 <= j < |rest| ==> rest[j] in frames)
            && forall a, b :: 0 <= a < b < |rest| ==> KeyOf(rest[a]) != KeyOf(rest[b])
  {
    var rest, n := SwapRemoved(frames, i), |frames| - 1;
    forall j | 0 <= j < |rest| ensures rest[j] == frames[if j == i then n else j] {}
  }

  lemma UnmappedFrames(s: State, k: Key)
    requires Ok(s) && k in s.ptes && s.ptes[k].kpage in s.index && s.index[s.ptes[k].kpage] < |s.frames|
    ensures var s' := Unmapped(s, k);
            && IndexOk(s'.frames, s'.index) && FramesOk(s'.frames, s'.hasPd, s'.ptes, s'.pages)
            && NoFrame(s'.frames, k) && forall j :: 0 <= j < |s'.frames| ==> s'.frames[j] in s.frames
  {
    hide IndexOk, SwapOk, ResidentOk, TablesOk, SwapRemoved, SwapRemovedIndex;
    OwnPage(s, k);
    var i := s.index[s.ptes[k].kpage];
    SwapRemovedOk(s.frames, s.index, i);
    SwappedOut(s.frames, i);
  }

  lemma UnmappedOk(s: State, k: Key)
    requires Ok(s) && k !in s.spt && k in s.ptes && s.ptes[k].kpage in s.index && s.index[s.ptes[k].kpage] < |s.frames|
    ensures Ok(Unmapped(s, k))
  {
    hide IndexOk, FramesOk, SwapOk, ResidentOk;
    UnmappedFrames(s, k);
    UnmappedResident(s, k);
  }

  lemma UnmappedResident(s: State, k: Key)
    requires Ok(s) && k !in s.spt && k in s.ptes && s.ptes[k].kpage in s.index && s.index[s.ptes[k].kpage] < |s.frames|
    ensures var s' := Unmapped(s, k); ResidentOk(s'.frames, s'.index, s'.ptes, s'.spt)
  {
    hide IndexOk, FramesOk, SwapOk, OwnFrame, TablesOk, SwapRemoved, SwapRemovedIndex;
    var s' := Unmapped(s, k);
    UnmappedFrames(s, k);
    forall m | m in s'.ptes ensures s'.ptes[m].kpage in s'.index && OwnFrame(s'.frames, s'.index, s'.ptes, m) {
      OwnFrameLeft(s, k, m);
    }
  }

  lemma NewEntryOk(s: State, k: Key, e: Entry, s': State)
    requires Ok(s) && LifeStep(s, NewEntry(k, e), s')
    ensures Ok(s')
  {
    hide IndexOk, FramesOk, OwnFrame;
  }

  lemma DropEntriesOk(s: State, tid: int, s': State)
    requires Ok(s) && LifeStep(s, DropEntries(tid), s')
    ensures Ok(s')
  {
    hide IndexOk, FramesOk, OwnFrame;
    forall k | k in s'.spt && s'.spt[k].location.InSwap? ensures s'.slots[s'.spt[k].location.slot] {
      assert s.slots[s.spt[k].location.slot];
    }
  }

  lemma AttachOk(s: State, tid: int, s': State)
    requires Ok(s) && LifeStep(s, Attach(tid), s')
    ensures Ok(s')
  {
    forall i | 0 <= i < |s.frames| && s.frames[i].tid == tid
      ensures KeyOf(s.frames[i]) in s.ptes && s.ptes[KeyOf(s.frames[i])].kpage == s.frames[i].kpage
    {
      var k := KeyOf(s.frames[i]);
      OwnPage(s, k);
      var j := s.index[s.ptes[k].kpage];
      assert j == i;
    }
  }

  lemma LifeKeepsTables(s: State, l: Life, s': State)
    requires Ok(s) && LifeStep(s, l, s')
    ensures Ok(s')
  {
    match l
    case NewEntry(k, e) => NewEntryOk(s, k, e, s');
    case NewMapping(k, kpage, p) => WithMappingOk(s, k, kpage, p);
    case Unmap(k) => UnmappedOk(s, k);
    case Attach(tid) => AttachOk(s, tid, s');
    case DropEntries(tid) => DropEntriesOk(s, tid, s');
    case NewTable(_) =>
    case Detach(_) =>
    case DropTables(_) =>
  }

  // ---- the bytes ----------------------------------------------------------------------------------

  /** The step takes the page's entry away. */
  predicate Ends(l: Life, k: Key) { l == DropEntries(k.0) }

  lemma LifeKeepsEntry(s: State, l: Life, s': State, k: Key)
    requires LifeStep(s, l, s') && k in s.spt && !Ends(l, k)
    ensures k in s'.spt && s'.spt[k] == s.spt[k]
    ensures k in s.ptes ==> k in s'.ptes && s'.ptes[k] == s.ptes[k]
  {}

  /** As long as its entry stands, a page keeps its bytes whatever comes and goes besides. */
  lemma LifeBytes(s: State, l: Life, s': State, k: Key, files: Files)
    requires Ok(s) && Ok(s') && LifeStep(s, l, s') && k in s.spt && !Ends(l, k)
    ensures k in s'.spt && PageBytes(s', k, files) == PageBytes(s, k, files)
  {
    hide Ok, SlotPage;
    LifeKeepsEntry(s, l, s', k);
    Locatable(s, k);
    Locatable(s', k);
    if l.NewMapping? && s.spt[k].location == InMemory { OwnPage(s, k); }
  }
}
