/**
 The pager: frame table, eviction, swap and reloading, each updating its tables in place.
 */
module VmPager {
  import opened VmFrame
  import opened VmPage
  import opened VmLife
  import opened VmRun
  import opened FsBytes
  import opened Options

  /** Frame i is the first one holding that page. */
  ghost predicate FirstOf(frames: seq<Frame>, i: nat, k: Key)
  {
    i < |frames| && KeyOf(frames[i]) == k && forall j :: 0 <= j < i ==> KeyOf(frames[j]) != k
  }

  class Vm {
    const files: Files
    var frames: seq<Frame>
    var index: map<nat, nat>
    var clock: nat
    var hasPd: set<int>          // threads with a page directory
    var tables: set<Key>         // page tables of their directories
    var ptes: map<Key, Pte>
    var hasSpt: set<int>         // threads with a supplementary page table
    var spt: map<Key, Entry>
    var pages: map<nat, Page>
    var slots: seq<bool>
    var device: seq<Sector>
    var swapMap: map<Key, nat>   // slots of pages whose thread has no table

    ghost function S(): State
      reads this
    {
      State(frames, index, hasPd, tables, ptes, hasSpt, spt, pages, slots, device)
    }

    ghost predicate Valid() reads this { Ok(S()) }

    // ---- the table ---------------------------------------------------------------------------------

    method RegisterFrame(kpage: nat, upage: nat, tid: int)
      requires IndexOk(frames, index) && kpage !in index
      modifies this`frames, this`index
      ensures IndexOk(frames, index) && frames == old(frames) + [Frame(kpage, upage, tid, false)]
      ensures index.Keys == old(index).Keys + {kpage} && forall p :: p in old(index) ==> index[p] == old(index)[p]
    {
      PushedIndex(frames, index, Frame(kpage, upage, tid, false));
      var idx := |frames|;
      frames := frames + [Frame(kpage, upage, tid, false)];
      index := index[kpage := idx];
    }

    /** free_frame: the frame of kpage, and no other, leaves the table. */
    method FreeFrame(kpage: nat)
      requires IndexOk(frames, index)
      modifies this`frames, this`index
      ensures IndexOk(frames, index) && index.Keys == old(index).Keys - {kpage}
      ensures forall f :: f in frames <==> f in old(frames) && f.kpage != kpage
      ensures if kpage in old(index) then
                && old(index)[kpage] < |old(frames)| && frames == SwapRemoved(old(frames), old(index)[kpage])
                && index == SwapRemovedIndex(old(frames), old(index), old(index)[kpage])
              else frames == old(frames) && index == old(index)
      ensures kpage in old(index) && old(index)[kpage] == |old(frames)| - 1 ==>
                frames == old(frames)[..|old(frames)| - 1] && index == old(index) - {kpage}
    {
      if kpage in index {
        var idx := index[kpage];
        SwapRemovedOk(frames, index, idx);
        var last := |frames| - 1;
        frames := if idx == last then frames[..last] else frames[..last][idx := frames[last]];
        index := index - {kpage};
        if idx < |frames| {
          index := index[frames[idx].kpage := idx];
        }
      }
    }

    method PinUpage(tid: int, upage: nat, pinned: bool)
      requires IndexOk(frames, index)
      modifies this`frames
      ensures IndexOk(frames, index) && |frames| == |old(frames)|
      ensures forall i :: 0 <= i < |frames| ==>
                frames[i] == if FirstOf(old(frames), i, (tid, upage)) then old(frames)[i].(pinned := pinned)
                    else old(frames)[i]
    {
      for i := 0 to |frames|
        invariant frames == old(frames)
        invariant forall j :: 0 <= j < i ==> KeyOf(frames[j]) != (tid, upage)
      {
        if frames[i].tid == tid && frames[i].upage == upage {
          frames := frames[i := frames[i].(pinned := pinned)];
          return;
        }
      }
    }

    /** remove(hand), with the shifted part of the index entered again. */
    method RemoveFrame(hand: nat)
      requires IndexOk(frames, index) && hand < |frames|
      modifies this`frames, this`index
      ensures frames == Removed(old(frames), hand) && IndexOk(frames, index)
      ensures index.Keys == old(index).Keys - {old(frames)[hand].kpage}
    {
      ghost var frames0, index0 := frames, index;
      RemovedReindexed(frames, index, hand);
      index := index - {frames[hand].kpage};
      frames := frames[..hand] + frames[hand + 1..];
      for i := hand to |frames|
        invariant frames == Removed(frames0, hand) && Reindexed(frames, index, hand, i)
        invariant index.Keys == index0.Keys - {frames0[hand].kpage}
      {
        ReindexedNext(frames0, index0, index, hand, i);
        index := index[frames[i].kpage := i];
      }
      ReindexedDone(frames, index, hand);
    }

    // ---- swap -----------------------------------------------------------------------------------------

    method AllocSlot() returns (r: Option<nat>)
      modifies this`slots
      ensures r.None? ==> AllSlotsUsed(slots) && slots == old(slots)
      ensures r.Some? ==> r.value < |old(slots)| && !old(slots)[r.value] && slots == old(slots)[r.value := true]
      ensures r.Some? ==> forall s :: 0 <= s < r.value ==> old(slots)[s]
    {
      for i := 0 to |slots|
        invariant slots == old(slots) && forall s :: 0 <= s < i ==> slots[s]
      {
        if !slots[i] {
          slots := slots[i := true];
          return Some(i);
        }
      }
      return None;
    }

    method SwapOut(kpage: nat) returns (r: Option<nat>)
      requires kpage in pages && |device| >= SECTORS_PER_PAGE * |slots|
      modifies this`slots, this`device
      ensures r.None? ==> AllSlotsUsed(slots) && slots == old(slots) && device == old(device)
      ensures r.Some? ==> r.value < |old(slots)| && !old(slots)[r.value] && slots == old(slots)[r.value := true]
      ensures r.Some? ==> SlotWritten(old(device), device, r.value, pages[kpage], SECTORS_PER_PAGE)
    {
      r := AllocSlot();
      if r.None? { return; }
      var base := r.value * SECTORS_PER_PAGE;
      for i := 0 to SECTORS_PER_PAGE
        invariant slots == old(slots)[r.value := true] && SlotWritten(old(device), device, r.value, pages[kpage], i)
      {
        var buf := PageSector(pages[kpage], i);
        device := device[base + i := buf];
      }
    }

    method SwapIn(slot: nat, kpage: nat)
      requires slot < |slots| && |device| >= SECTORS_PER_PAGE * |slots| && kpage in pages
      modifies this`slots, this`pages
      ensures slots == old(slots)[slot := false] && pages == old(pages)[kpage := SlotPage(device, slot)]
    {
      var base := slot * SECTORS_PER_PAGE;
      ghost var p0 := pages;
      for i := 0 to SECTORS_PER_PAGE
        invariant slots == old(slots) && pages.Keys == p0.Keys &&
                  (forall k :: k in p0 && k != kpage ==> pages[k] == p0[k])
        invariant forall b :: 0 <= b < i * SECTOR_SIZE ==> pages[kpage][b] == SlotPage(device, slot)[b]
      {
        var buf := device[base + i];
        pages := pages[kpage := pages[kpage][..i * SECTOR_SIZE] + buf + pages[kpage][i * SECTOR_SIZE + SECTOR_SIZE..]];
      }
      assert pages[kpage] == SlotPage(device, slot);
      slots := slots[slot := false];
    }

    // ---- eviction ---------------------------------------------------------------------------------------

    /** The page under the hand goes to swap if it is dirty; the table learns where it went. */
    method MoveOut(f: Frame) returns (ok: bool, ghost loc: Location)
      requires f.kpage in pages && |device| >= SECTORS_PER_PAGE * |slots| && forall k :: k in spt ==> k.0 in hasSpt
      modifies this`spt, this`slots, this`device, this`swapMap
      ensures !ok <==> Dirty(ptes, KeyOf(f)) && old(AllSlotsUsed(slots))
      ensures !ok ==> spt == old(spt) && slots == old(slots) && device == old(device) && swapMap == old(swapMap)
      ensures ok ==> loc != InMemory && Moved(loc, old(slots), slots, old(device), device, pages[f.kpage])
      ensures ok ==> spt == if KeyOf(f) in old(spt) then old(spt)[KeyOf(f) := old(spt)[KeyOf(f)].(location := loc)]
              else old(spt)
      ensures ok ==> (loc.InSwap? <==> Dirty(ptes, KeyOf(f)))
      ensures ok && KeyOf(f) in old(spt) && !Dirty(ptes, KeyOf(f)) ==> loc == CleanLocation(old(spt)[KeyOf(f)])
    {
      hide SlotWritten;
      var k := KeyOf(f);
      ok, loc := true, Zero;
      if Dirty(ptes, k) {
        var r := SwapOut(f.kpage);
        if r.None? { return false, Zero; }
        loc := InSwap(r.value);
        if f.tid in hasSpt {
          if k in spt { spt := spt[k := spt[k].(location := InSwap(r.value))]; }
        } else {
          swapMap := swapMap[k := r.value];
        }
      } else if f.tid in hasSpt {
        if k in spt {
          loc := CleanLocation(spt[k]);
          spt := spt[k := spt[k].(location := CleanLocation(spt[k]))];
        }
      }
    }

    method TryEvict(hand: nat) returns (ok: bool, ghost loc: Location)
      requires Valid() && hand < |frames|
      modifies this`frames, this`index, this`ptes, this`spt, this`slots, this`device, this`swapMap
      ensures !ok <==> old(Dirty(ptes, KeyOf(frames[hand])) && AllSlotsUsed(slots))
      ensures Valid() && if ok then EvictedTo(old(S()), S(), hand, loc) else S() == old(S())
    {
      hide ResidentOk, SlotWritten, Removed, Moved;
      ghost var s0 := S();
      var f := frames[hand];
      ok, loc := MoveOut(f);
      if !ok { return; }
      ptes := ptes - {KeyOf(f)};
      RemoveFrame(hand);
      EvictedOk(s0, S(), hand, loc);
    }

    method Age(k: Key)
      requires Valid() && k in ptes
      modifies this`ptes
      ensures Valid() && Aged(old(S()), S()) && !Accessed(ptes, k)
      ensures ptes == old(ptes)[k := old(ptes)[k].(accessed := false)]
    {
      ghost var s0 := S();
      ptes := ptes[k := ptes[k].(accessed := false)];
      MarkedOk(s0, S());
    }

    /** One tick of the clock on frame i. */
    method Visit(i: nat) returns (taken: bool, ghost s: State, ghost loc: Location)
      requires Valid() && i < |frames|
      modifies this`frames, this`index, this`ptes, this`spt, this`slots, this`device, this`swapMap
      ensures Valid() && Aged(old(S()), s) && Ok(s)
      ensures !taken ==> S() == s && (Stuck(s, i) || (!Accessed(s.ptes, KeyOf(s.frames[i])) &&
                                                      old(Accessed(ptes, KeyOf(frames[i])))))
      ensures taken ==> EvictedTo(s, S(), i, loc) && !Stuck(s, i) && !old(Accessed(ptes, KeyOf(frames[i])))
      ensures OnlyKey(old(S()), s, old(KeyOf(frames[i]))) && (taken ==> s == old(S()))
    {
      hide IndexOk, FramesOk, ResidentOk, SwapOk, EvictedTo;
      var f := frames[i];
      s, loc := S(), Zero;
      if f.pinned { return false, s, loc; }
      if f.tid !in hasPd { return false, s, loc; }
      if Accessed(ptes, KeyOf(f)) {
        Age(KeyOf(f));
        s := S();
        return false, s, loc;
      }
      taken, loc := TryEvict(i);
    }

    /** evict_frame.  Without concurrent accesses, and as long as the clock does not wrap, two
        rotations fail exactly when every frame is pinned, without a page directory, or dirty with
        swap full.  A pinned frame is never taken, and only a frame not accessed since it was last
        passed is. */
    method EvictFrame() returns (r: Option<nat>, ghost s: State, ghost hand: nat, ghost loc: Location)
      requires Valid() && clock < USIZE
      modifies this
      ensures Valid() && clock < USIZE && Ok(s) && Aged(old(S()), s)
      ensures r.None? ==> S() == s
      ensures r.Some? ==> hand < |s.frames| && EvictedTo(s, S(), hand, loc) && r.value == s.frames[hand].kpage
      ensures r.Some? ==> !Stuck(s, hand) && !Accessed(s.ptes, KeyOf(s.frames[hand]))
      ensures old(clock) + 2 * |old(frames)| < USIZE ==>
                (r.None? <==> forall i :: 0 <= i < |old(frames)| ==> Stuck(old(S()), i))
      ensures r.Some? && old(clock) + 2 * |old(frames)| < USIZE ==> exists d ::
                hand == Hand(old(clock), |old(frames)|, d) && ClockChoice(old(S()), old(clock), d)
    {
      hide ClockChoice, Passing, OnlyKey, Ok, EvictedTo, Scanned, Accessed, Ticks, Ticked;
      Tick(clock, 0);
      s, hand, loc := S(), 0, Zero;
      if |frames| == 0 { return None, s, hand, loc; }
      ghost var s0, clock0 := S(), clock;
      var len := |frames|;
      ghost var noWrap := clock0 + 2 * len < USIZE;
      assert Scanned(s0, clock0, 0) && Passing(s0, s0, clock0, 0) by { ScannedNone(s0, clock0); }
      for n := 0 to 2 * len
        invariant Valid() && Aged(s0, S()) && s == S()
        invariant clock == Ticks(clock0, n)
        invariant noWrap ==> Scanned(S(), clock0, n) && Passing(s0, S(), clock0, n)
      {
        var i := clock % len;
        Tick(clock0, n);
        clock := Ticked(clock);
        var kpage := frames[i].kpage;
        ghost var s1 := S();
        if noWrap && n >= len { SecondPass(s1, clock0, n); }
        var taken;
        taken, s, loc := Visit(i);
        AgedTwice(s0, s1, s);
        MarkedOk(s0, s);
        if taken {
          if clock > 0 { clock := clock - 1; }
          if noWrap { Chosen(s0, s1, clock0, n); }
          return Some(kpage), s, i, loc;
        }
        if noWrap {
          MarkedOk(s1, s);
          ScannedAged(s1, s, clock0, n);
          ScannedNext(s, clock0, n);
          PassingNext(s0, s1, s, clock0, n);
        }
      }
      Tick(clock0, 2 * len);
      MarkedOk(s0, s);
      if noWrap { TwoRotations(s, clock0); }
      return None, s, hand, loc;
    }

    /** A page for a new frame: free if there is one, otherwise that of an evicted frame. */
    method TakePage(free: Option<nat>) returns (r: Option<nat>)
      requires Valid() && clock < USIZE && (free.Some? ==> free.value !in index)
      modifies this
      ensures clock < USIZE && Keeps(old(S()), S(), files) && SameAbsent(old(spt), spt) && Reaches(old(S()), S(), files)
      ensures tables == old(tables) && (r.None? ==> free.None?)
      ensures old(clock) + 2 * |old(frames)| < USIZE ==> (r.Some? <==> free.Some? || Takeable(old(S())))
      ensures r.Some? ==> r.value !in index
    {
      hide Ok, Keeps, EvictedTo, Reaches;
      ghost var s0 := S();
      Unchanged(s0, files);
      r := free;
      if r.None? {
        ghost var s, hand, loc;
        r, s, hand, loc := EvictFrame();
        AfterAging(s0, s, files);
        assert s.tables == s0.tables;
        if r.Some? { AfterEviction(s0, s, S(), hand, loc, files); }
      }
    }

    /** alloc_frame: the page is zeroed and entered in the table.  s is the state with the page in
        hand but not yet entered. */
    method AllocFrame(upage: nat, tid: int, free: Option<nat>) returns (r: Option<nat>, ghost s: State)
      requires Valid() && clock < USIZE && (free.Some? ==> free.value !in index)
      modifies this
      ensures clock < USIZE && Keeps(old(S()), s, files) && SameAbsent(old(spt), s.spt) && Reaches(old(S()), s, files)
      ensures s.tables == old(tables) && (r.None? ==> S() == s && free.None?)
      ensures old(clock) + 2 * |old(frames)| < USIZE ==> (r.Some? <==> free.Some? || Takeable(old(S())))
      ensures r.Some? ==> r.value !in s.index && r.value in s.pages && s.pages[r.value] == ZeroPage()
      ensures r.Some? ==>
                S() == s.(frames := s.frames + [Frame(r.value, upage, tid, false)],
                          index := s.index[r.value := |s.frames|])
    {
      hide Ok, Keeps, Reaches;
      ghost var s0 := S();
      r := TakePage(free);
      s := S();
      if r.None? { return; }
      AfterScratch(s0, s, r.value, ZeroPage(), files);
      pages := pages[r.value := ZeroPage()];
      s := S();
      KeepsOk(s0, s, files);
      RegisterFrame(r.value, upage, tid);
      assert index == s.index[r.value := |s.frames|];
    }

    /** What read_at copies: size bytes of the file from offset on, or as many as it has there. */
    function ReadFrom(inode: nat, size: nat, offset: nat): (bytes: seq<Byte>)
      ensures |bytes| <= size
    {
      if inode !in files || |files[inode]| <= offset then []
      else files[inode][offset..Min(|files[inode]|, offset + size)]
    }

    /** The page's bytes, fetched into its new frame. */
    method Fetch(k: Key, kpage: nat)
      requires k in spt && kpage in pages && pages[kpage] == ZeroPage() && spt[k].location != InMemory
      requires spt[k].location.InSwap? ==> spt[k].location.slot < |slots| && |device| >= SECTORS_PER_PAGE * |slots|
      requires WfEntry(spt[k])
      modifies this`pages, this`slots
      ensures pages == old(pages)[kpage := Held(k, spt, ptes, old(pages), device, files)]
      ensures slots == if spt[k].location.InSwap? then old(slots)[spt[k].location.slot := false] else old(slots)
    {
      var e := spt[k];
      match e.location {
        case OnDisk =>
          pages := pages[kpage := ZeroPage()];
          if e.readBytes > 0 {
            pages := pages[kpage := Splice(pages[kpage], e.pageOfs, ReadFrom(e.inode, e.readBytes, e.fileOffset))];
          }
          assert FileBytes(e, files) == pages[kpage];
        case InSwap(slot) => SwapIn(slot, kpage);
        case Zero =>
      }
    }

    /** set_page: the mapping is made unless its page table is missing and there is no page for one. */
    method SetPage(k: Key, kpage: nat, tablePage: bool) returns (ok: bool)
      modifies this`tables, this`ptes
      ensures ok <==> TableOf(k) in old(tables) || tablePage
      ensures ok ==> tables == old(tables) + {TableOf(k)} && ptes == old(ptes)[k := Pte(kpage, false, false)]
      ensures !ok ==> tables == old(tables) && ptes == old(ptes)
    {
      if TableOf(k) !in tables {
        if !tablePage { return false; }
        tables := tables + {TableOf(k)};
      }
      ptes := ptes[k := Pte(kpage, false, false)];
      ok := true;
    }

    /** load_page.  Whatever was reloaded or written before, the tables stay consistent, also when it
        fails; a page that was out of memory, or dirty, or equal to what a reload gives, keeps its
        bytes, the page asked for among them; and all that happened is a run of the pager.  As long as
        the clock does not wrap it succeeds exactly if the page is in memory, or its page table is
        there or can be had and there is a free page or a frame that can be taken.  A page in swap
        has its page table. */
    method LoadPage(k: Key, free: Option<nat>, tablePage: bool) returns (ok: bool)
      requires Valid() && clock < USIZE && k in spt && (free.Some? ==> free.value !in index)
      modifies this
      ensures clock < USIZE && Valid() && Keeps(old(S()), S(), files) && Reaches(old(S()), S(), files)
      ensures old(spt)[k].location == InMemory ==> ok && S() == old(S())
      ensures old(spt)[k].location.InSwap? ==> TableOf(k) in old(tables)
      ensures ok ==> k in spt && spt[k].location == InMemory
      ensures !ok ==> k in spt && spt[k] == old(spt)[k]
      ensures ok && old(spt)[k].location != InMemory ==> k in ptes && !ptes[k].dirty
      ensures ok && old(spt)[k].location != InMemory ==>
                (CleanIsSaved(S(), k, files) <==> PageBytes(old(S()), k, files) == Reloaded(old(spt)[k], files))
      ensures free.Some? || old(clock) + 2 * |old(frames)| < USIZE ==>
                (ok <==> old(spt)[k].location == InMemory ||
                         ((TableOf(k) in old(tables) || tablePage) && (free.Some? || Takeable(old(S())))))
    {
      hide Ok, Keeps, Reaches, Takeable;
      ghost var s0 := S();
      Unchanged(s0, files);
      SwappedHasTable(s0, k);
      if spt[k].location == InMemory { return true; }
      var r;
      ghost var s;
      r, s := AllocFrame(k.1, k.0, free);
      KeepsOk(s0, s, files);
      if r.None? { return false; }
      ok := FinishLoad(k, r.value, tablePage, s0, s);
    }

    /** The frame entered last is taken out again. */
    method Discard(kpage: nat, ghost frames0: seq<Frame>, ghost index0: map<nat, nat>)
      requires IndexOk(frames0, index0) && kpage !in index0 && index == index0[kpage := |frames0|]
      requires |frames| == |frames0| + 1 && frames[..|frames0|] == frames0 && frames[|frames0|].kpage == kpage
      modifies this`frames, this`index
      ensures frames == frames0 && index == index0
    {
      PushedIndex(frames0, index0, frames[|frames0|]);
      assert frames == frames0 + [frames[|frames0|]];
      FreeFrame(kpage);
    }

    method FinishLoad(k: Key, kpage: nat, tablePage: bool, ghost s0: State, ghost s: State) returns (ok: bool)
      requires Keeps(s0, s, files) && k in s0.spt && s0.spt[k].location != InMemory && SameAbsent(s0.spt, s.spt)
      requires Reaches(s0, s, files) && kpage !in s.index && kpage in s.pages && s.pages[kpage] == ZeroPage()
      requires S() == s.(frames := s.frames + [Frame(kpage, k.1, k.0, false)], index := s.index[kpage := |s.frames|])
      modifies this`frames, this`index, this`tables, this`ptes, this`spt, this`pages, this`slots
      ensures ok <==> TableOf(k) in s.tables || tablePage
      ensures Valid() && Keeps(s0, S(), files) && Reaches(s0, S(), files)
      ensures ok ==> k in spt && spt[k].location == InMemory && k in ptes && !ptes[k].dirty
      ensures ok ==> (CleanIsSaved(S(), k, files) <==> PageBytes(s0, k, files) == Reloaded(s0.spt[k], files))
      ensures !ok ==> k in spt && spt[k] == s0.spt[k]
    {
      hide Ok, Keeps, SlotPage, Held, PageBytes, Reaches;
      LoadFacts(s0, s, k, files);
      KeepsOk(s0, s, files);
      SwappedHasTable(s, k);
      Fetch(k, kpage);
      ok := SetPage(k, kpage, tablePage);
      if ok {
        spt := spt[k := spt[k].(location := InMemory)];
        AfterMapping(s0, s, S(), k, kpage, files);
        return;
      }
      ghost var p := pages[kpage];
      Discard(kpage, s.frames, s.index);
      AfterScratch(s0, s, kpage, p, files);
      KeepsOk(s0, S(), files);
    }

    // ---- exit -------------------------------------------------------------------------------------------

    /** remove_spt and destroy: the thread's entries are gone and exactly the slots they name free. */
    method Destroy(tid: int)
      requires Valid()
      modifies this`spt, this`slots, this`hasSpt
      ensures Valid() && LifeStep(old(S()), DropEntries(tid), S())
    {
      hide Ok, LifeStep, Names;
      ghost var s0 := S();
      SlotsInRange(s0);
      hasSpt := hasSpt - {tid};
      var todo := set k | k in spt && k.0 == tid;
      NamesNone(spt, tid, todo);
      while todo != {}
        invariant spt == s0.spt && hasSpt == s0.hasSpt - {tid} && |slots| == |s0.slots|
        invariant todo <= spt.Keys && forall k :: k in todo ==> k.0 == tid
        invariant forall x :: 0 <= x < |slots| ==> (slots[x] <==> s0.slots[x] && !Names(spt, tid, todo, x))
        decreases |todo|
      {
        var k :| k in todo;
        NamesNext(spt, tid, todo, k);
        todo := todo - {k};
        if spt[k].location.InSwap? {
          slots := slots[spt[k].location.slot := false];
        }
      }
      spt := map k | k in spt && k.0 != tid :: spt[k];
      EntriesDropped(s0, tid, S());
      LifeKeepsTables(s0, DropEntries(tid), S());
    }

    /** One page of pagedir::destroy: its frame is freed, and its mapping goes with the directory. */
    method FreeMapped(k: Key)
      requires Valid() && k in ptes && k !in spt
      modifies this`frames, this`index, this`ptes
      ensures Valid() && LifeStep(old(S()), Unmap(k), S())
      ensures ptes == old(ptes) - {k} && forall f :: f in frames <==> f in old(frames) && KeyOf(f) != k
    {
      hide Ok, ResidentOk, SwapRemoved, SwapRemovedIndex;
      ghost var s0 := S();
      OwnPage(s0, k);
      UnmappedKeys(s0, k);
      FreeFrame(ptes[k].kpage);
      ptes := ptes - {k};
      LifeKeepsTables(s0, Unmap(k), S());
    }

    /** What exit does to a thread's pages: the supplementary table is destroyed, the directory taken
        from the thread, every page still mapped in it freed, and its page tables given back.  Nothing
        of the thread is left: no entry, mapping, page table or frame, and no slot its entries named. */
    method ExitThread(tid: int)
      requires Valid() && tid in hasPd
      modifies this`frames, this`index, this`hasPd, this`tables, this`ptes, this`hasSpt, this`spt, this`slots
      ensures Valid() && Reaches(old(S()), S(), files)
      ensures spt == OthersEntries(old(spt), tid) && SlotsFreed(old(spt), tid, old(slots), slots)
      ensures forall k :: k in ptes <==> k in old(ptes) && k.0 != tid
      ensures forall f :: f in frames <==> f in old(frames) && f.tid != tid
      ensures forall t :: t in tables <==> t in old(tables) && t.0 != tid
    {
      hide Ok, Reaches, LifeStep, Step, Leaving, SlotsFreed;
      ghost var s0 := S();
      Unchanged(s0, files);
      FramesAreMapped(s0, tid);
      Destroy(tid);
      ghost var s1 := S();
      LifeReaches(s0, s0, DropEntries(tid), s1, files);
      EntriesGone(s0, s1, tid);
      hasPd := hasPd - {tid};
      Detached(s1, tid, S());
      LifeReaches(s0, s1, Detach(tid), S(), files);
      ghost var s2 := S();
      FreeUserPages(tid, s0);
      Left(s2, S(), tid);
      ghost var s3 := S();
      tables := set t | t in tables && t.0 != tid;
      TablesDropped(s3, tid, S());
      LifeReaches(s0, s3, DropTables(tid), S(), files);
    }

    /** The loops of pagedir::destroy over the pages still mapped. */
    method FreeUserPages(tid: int, ghost s0: State)
      requires Valid() && Reaches(s0, S(), files) && forall k :: k in spt ==> k.0 != tid
      requires forall f :: f in frames && f.tid == tid ==> KeyOf(f) in ptes
      modifies this`frames, this`index, this`ptes
      ensures Valid() && Reaches(s0, S(), files) && Leaving(old(S()), S(), tid, {})
    {
      hide Ok, Reaches, LifeStep, Step, Leaving;
      ghost var s1 := S();
      var todo := set k | k in ptes && k.0 == tid;
      LeavingStart(s1, tid, todo);
      while todo != {}
        invariant Valid() && Reaches(s0, S(), files) && Leaving(s1, S(), tid, todo)
        decreases |todo|
      {
        var k :| k in todo;
        ghost var s := S();
        LeavingKey(s1, s, tid, todo, k);
        FreeMapped(k);
        LifeReaches(s0, s, Unmap(k), S(), files);
        LeavingNext(s1, s, S(), tid, todo, k);
        todo := todo - {k};
      }
    }
  }

  /** Of the thread's mappings and frames in s those of the keys in todo are left in s', and all of
      the others'. */
  ghost predicate Leaving(s: State, s': State, tid: int, todo: set<Key>)
  {
    && s' == s.(frames := s'.frames, index := s'.index, ptes := s'.ptes)
    && (forall k :: k in todo <==> k in s'.ptes && k.0 == tid)
    && (forall k: Key :: k.0 != tid ==> (k in s'.ptes <==> k in s.ptes))
    && (forall f :: f in s'.frames && f.tid == tid ==> KeyOf(f) in todo)
    && (forall f: Frame :: f.tid != tid ==> (f in s'.frames <==> f in s.frames))
  }

  lemma LeavingStart(s: State, tid: int, todo: set<Key>)
    requires todo == (set k | k in s.ptes && k.0 == tid) && forall f :: f in s.frames && f.tid == tid ==>
             KeyOf(f) in s.ptes
    ensures Leaving(s, s, tid, todo)
  {}

  lemma LeavingKey(s: State, s': State, tid: int, todo: set<Key>, k: Key)
    requires Leaving(s, s', tid, todo) && k in todo && forall m :: m in s.spt ==> m.0 != tid
    ensures k in s'.ptes && k !in s'.spt && k.0 == tid
  {}

  lemma LeavingNext(s: State, s1: State, s2: State, tid: int, todo: set<Key>, k: Key)
    requires Leaving(s, s1, tid, todo) && k in todo
    requires s2 == s1.(frames := s2.frames, index := s2.index, ptes := s1.ptes - {k})
    requires forall f :: f in s2.frames <==> f in s1.frames && KeyOf(f) != k
    ensures Leaving(s, s2, tid, todo - {k})
  {}

  lemma Left(s: State, s': State, tid: int)
    requires Leaving(s, s', tid, {})
    ensures s' == s.(frames := s'.frames, index := s'.index, ptes := s'.ptes)
    ensures forall k :: k in s'.ptes <==> k in s.ptes && k.0 != tid
    ensures forall f :: f in s'.frames <==> f in s.frames && f.tid != tid
  {}

  lemma LifeReaches(s0: State, s: State, l: Life, s': State, files: Files)
    requires Reaches(s0, s, files) && LifeStep(s, l, s')
    ensures Reaches(s0, s', files)
  {
    hide Reaches, LifeStep;
    ReachesOn(s0, s, Cycle(l), s', files);
  }

  /** Some frame can be taken. */
  ghost predicate Takeable(s: State) { exists i :: 0 <= i < |s.frames| && !Stuck(s, i) }

  lemma SwappedHasTable(s: State, k: Key)
    requires Ok(s) && k in s.spt
    ensures s.spt[k].location.InSwap? ==> TableOf(k) in s.tables
  {}

  lemma SlotsInRange(s: State)
    requires Ok(s)
    ensures forall k :: k in s.spt && s.spt[k].location.InSwap? ==> s.spt[k].location.slot < |s.slots|
  {}

  lemma NamesNone(spt: map<Key, Entry>, tid: int, todo: set<Key>)
    requires forall k :: k in spt && k.0 == tid ==> k in todo
    ensures forall x :: !Names(spt, tid, todo, x)
  {}

  lemma NamesNext(spt: map<Key, Entry>, tid: int, todo: set<Key>, k: Key)
    requires k in todo && k in spt && k.0 == tid
    ensures forall x :: Names(spt, tid, todo - {k}, x) <==> Names(spt, tid, todo, x) || spt[k].location == InSwap(x)
  {}

  lemma EntriesDropped(s: State, tid: int, s': State)
    requires SlotsFreed(s.spt, tid, s.slots, s'.slots)
    requires s' == s.(hasSpt := s.hasSpt - {tid}, spt := OthersEntries(s.spt, tid), slots := s'.slots)
    ensures LifeStep(s, DropEntries(tid), s')
  {}

  lemma FramesAreMapped(s: State, tid: int)
    requires Ok(s) && tid in s.hasPd
    ensures forall f :: f in s.frames && f.tid == tid ==> KeyOf(f) in s.ptes
  {}

  lemma EntriesGone(s: State, s': State, tid: int)
    requires LifeStep(s, DropEntries(tid), s')
    ensures SlotsFreed(s.spt, tid, s.slots, s'.slots)
    ensures s' == s.(hasSpt := s.hasSpt - {tid}, spt := OthersEntries(s.spt, tid), slots := s'.slots)
  {}

  lemma Detached(s: State, tid: int, s': State)
    requires Ok(s) && s' == s.(hasPd := s.hasPd - {tid})
    ensures Ok(s') && LifeStep(s, Detach(tid), s')
  {
    LifeKeepsTables(s, Detach(tid), s');
  }

  lemma UnmappedKeys(s: State, k: Key)
    requires Ok(s) && k in s.ptes
    ensures forall f :: f in s.frames ==> (f.kpage == s.ptes[k].kpage <==> KeyOf(f) == k)
    ensures s.ptes[k].kpage in s.index && IndexOk(s.frames, s.index)
  {
    OwnPage(s, k);
    forall i | 0 <= i < |s.frames| ensures s.frames[i].kpage == s.ptes[k].kpage <==> KeyOf(s.frames[i]) == k {}
  }

  lemma TablesDropped(s: State, tid: int, s': State)
    requires Ok(s) && (forall k :: k in s.ptes ==> k.0 != tid) && (forall k :: k in s.spt ==> k.0 != tid)
    requires s' == s.(tables := set t | t in s.tables && t.0 != tid)
    ensures Ok(s') && LifeStep(s, DropTables(tid), s')
  {
    LifeKeepsTables(s, DropTables(tid), s');
  }

  lemma Unchanged(s: State, files: Files)
    requires Ok(s)
    ensures Keeps(s, s, files) && Reaches(s, s, files)
  {
    assert Run([s], [], files);
  }

  lemma KeepsOk(s: State, s': State, files: Files)
    requires Keeps(s, s', files)
    ensures Ok(s) && Ok(s') && IndexOk(s'.frames, s'.index)
  {}

  lemma AfterAging(s0: State, s: State, files: Files)
    requires Ok(s0) && Ok(s) && Aged(s0, s)
    ensures Keeps(s0, s, files) && SameAbsent(s0.spt, s.spt) && Reaches(s0, s, files)
  {
    hide Ok, PageBytes, Reloaded, Reaches;
    KeepsSelf(s, files);
    MarkedKeeps(s0, s, s, files);
    ReachesBy(s0, Marks, s, files);
  }

  lemma AfterEviction(s0: State, s: State, s': State, hand: nat, loc: Location, files: Files)
    requires Ok(s0) && Ok(s) && Ok(s') && Aged(s0, s) && hand < |s.frames| && !Stuck(s, hand)
    requires EvictedTo(s, s', hand, loc)
    ensures Keeps(s0, s', files) && SameAbsent(s0.spt, s'.spt) && Reaches(s0, s', files)
    ensures s.frames[hand].kpage !in s'.index && s'.tables == s0.tables
  {
    hide Ok, PageBytes, Reloaded, Reaches, Keeps, EvictedTo, Step, Marked;
    AgedIsMarked(s0, s);
    EvictionFacts(s, s', hand, loc, files);
    EvictedKeeps(s, s', hand, loc, files);
    MarkedKeeps(s0, s, s', files);
    MarksStep(s0, s, files);
    ReachesBy(s0, Marks, s, files);
    ReachesOn(s0, s, Evict(hand, loc), s', files);
  }

  lemma AgedIsMarked(s: State, s': State)
    requires Aged(s, s')
    ensures Marked(s, s') && s'.tables == s.tables && s'.spt == s.spt
  {}

  lemma MarksStep(s: State, s': State, files: Files)
    requires Marked(s, s')
    ensures Step(s, Marks, s', files)
  {}

  lemma EvictionFacts(s: State, s': State, hand: nat, loc: Location, files: Files)
    requires hand < |s.frames| && !Stuck(s, hand) && EvictedTo(s, s', hand, loc)
    ensures s'.tables == s.tables && s.frames[hand].tid in s.hasPd && Step(s, Evict(hand, loc), s', files)
  {}

  lemma AfterScratch(s0: State, s: State, kpage: nat, p: Page, files: Files)
    requires Keeps(s0, s, files) && Reaches(s0, s, files) && kpage !in s.index
    ensures var s' := s.(pages := s.pages[kpage := p]); Keeps(s0, s', files) && Reaches(s0, s', files)
  {
    hide Ok, PageBytes, Reloaded, Reaches, Keeps, SameBytes;
    var s' := s.(pages := s.pages[kpage := p]);
    KeepsOk(s0, s, files);
    FreePageWritten(s, kpage, p, files);
    KeepsThenSame(s0, s, s', files);
    ReachesOn(s0, s, Scratch(kpage, p), s', files);
  }

  lemma LoadFacts(s0: State, s: State, k: Key, files: Files)
    requires Keeps(s0, s, files) && k in s0.spt && s0.spt[k].location != InMemory && SameAbsent(s0.spt, s.spt)
    ensures k in s.spt && s.spt[k] == s0.spt[k] && WfEntry(s.spt[k]) && |s.device| >= SECTORS_PER_PAGE * |s.slots|
    ensures s.spt[k].location.InSwap? ==> s.spt[k].location.slot < |s.slots|
    ensures PageBytes(s, k, files) == Held(k, s.spt, s.ptes, s.pages, s.device, files)
  {}

  lemma KeptOne(s: State, s': State, k: Key, files: Files)
    requires Keeps(s, s', files) && k in s.spt && s.spt[k].location != InMemory
    ensures Ok(s) && Ok(s') && k in s'.spt && PageBytes(s', k, files) == PageBytes(s, k, files)
  {}

  lemma LoadStep(s: State, k: Key, kpage: nat, files: Files)
    requires Ok(s) && k in s.spt && s.spt[k].location != InMemory && kpage !in s.index
    ensures Step(s, Load(k, kpage), Mapped(s, k, kpage, PageBytes(s, k, files)), files)
  {
    Locatable(s, k);
  }

  /** What load_page leaves when the page was mapped. */
  lemma AfterMapping(s0: State, s: State, s': State, k: Key, kpage: nat, files: Files)
    requires Keeps(s0, s, files) && Reaches(s0, s, files) && k in s0.spt && k in s.spt && s.spt[k] == s0.spt[k]
    requires s.spt[k].location != InMemory && kpage !in s.index && s' == Mapped(s, k, kpage, PageBytes(s, k, files))
    ensures Ok(s') && Keeps(s0, s', files) && Reaches(s0, s', files) && k in s'.spt
    ensures CleanIsSaved(s', k, files) <==> PageBytes(s0, k, files) == Reloaded(s0.spt[k], files)
  {
    hide Ok, PageBytes, Reloaded, Reaches, Keeps, SameBytes, Step;
    KeepsOk(s0, s, files);
    LoadStep(s, k, kpage, files);
    MappedSameBytes(s, k, kpage, PageBytes(s, k, files), files);
    KeepsThenSame(s0, s, s', files);
    ReachesOn(s0, s, Load(k, kpage), s', files);
    KeptOne(s0, s', k, files);
    ReloadedMoved(s.spt[k], InMemory, files);
  }

  lemma ScannedNone(s: State, clock: nat)
    requires 0 < |s.frames|
    ensures Scanned(s, clock, 0) && Passing(s, s, clock, 0)
  {}

  lemma AgedTwice(s: State, s': State, s'': State)
    requires Aged(s, s') && Aged(s', s'')
    ensures Aged(s, s'')
  {}
}
