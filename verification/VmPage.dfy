/**
 Demand paging: eviction by the clock, swap, the supplementary page table, and reloading.
 */
module VmPage {
  import opened VmFrame
  import opened FsBytes

  const PGSIZE := 4096
  const SECTORS_PER_PAGE := 8

  type Page = p: seq<Byte> | |p| == PGSIZE witness seq(PGSIZE, _ => 0)

  function ZeroPage(): Page { seq(PGSIZE, _ => 0) }

  /** A user page: its thread and its address. */
  type Key = (int, nat)

  datatype Pte = Pte(kpage: nat, accessed: bool, dirty: bool)

  datatype Location = InMemory | InSwap(slot: nat) | OnDisk | Zero

  datatype PageType = Binary | File | Anonymous

  datatype Entry = Entry(location: Location, kind: PageType, inode: nat, fileOffset: nat, readBytes: nat, pageOfs: nat)

  predicate WfEntry(e: Entry) { e.pageOfs + e.readBytes <= PGSIZE }

  // ---- where a page comes from -----------------------------------------------------------------

  type Files = map<nat, seq<Byte>>

  function FileByte(e: Entry, files: Files, b: nat): Byte
  {
    if e.pageOfs <= b < e.pageOfs + e.readBytes && e.inode in files && e.fileOffset + (b - e.pageOfs) < |files[e.inode]|
    then files[e.inode][e.fileOffset + (b - e.pageOfs)] else 0
  }

  /** The file bytes at page_ofs, and zeros around them; a short file leaves zeros too. */
  function FileBytes(e: Entry, files: Files): Page { seq(PGSIZE, b requires 0 <= b => FileByte(e, files, b)) }

  /** What an untouched page holds. */
  function Backing(e: Entry, files: Files): Page
  {
    if e.kind != Anonymous && e.readBytes > 0 then FileBytes(e, files) else ZeroPage()
  }

  /** Where eviction says a clean page can be had again. */
  function CleanLocation(e: Entry): Location { if e.kind == Binary && e.readBytes > 0 then OnDisk else Zero }

  /** What reloading a page from there gives. */
  function Reloaded(e: Entry, files: Files): Page
  {
    if CleanLocation(e) == OnDisk then FileBytes(e, files) else ZeroPage()
  }

  /** For the kinds of page the kernel makes, a clean eviction reloads what an untouched page holds. */
  lemma ReloadedIsBacking(e: Entry, files: Files)
    requires e.kind == Binary || e.kind == Anonymous
    ensures Reloaded(e, files) == Backing(e, files)
  {}

  // ---- swap slots --------------------------------------------------------------------------------

  function SlotPage(device: seq<Sector>, slot: nat): Page
    requires SECTORS_PER_PAGE * slot + SECTORS_PER_PAGE <= |device|
  {
    seq(PGSIZE, b requires 0 <= b < PGSIZE => device[SECTORS_PER_PAGE * slot + b / SECTOR_SIZE][b % SECTOR_SIZE])
  }

  function PageSector(p: Page, i: nat): Sector
    requires i < SECTORS_PER_PAGE
  {
    p[i * SECTOR_SIZE..i * SECTOR_SIZE + SECTOR_SIZE]
  }

  /** Slot's sectors hold p; all other sectors are as before. */
  ghost predicate SlotWritten(device: seq<Sector>, device': seq<Sector>, slot: nat, p: Page, n: nat)
    requires n <= SECTORS_PER_PAGE
  {
    && |device'| == |device| && SECTORS_PER_PAGE * slot + SECTORS_PER_PAGE <= |device|
    && (forall x :: 0 <= x < |device| && SECTORS_PER_PAGE * slot <= x < SECTORS_PER_PAGE * slot + n ==>
          device'[x] == PageSector(p, x - SECTORS_PER_PAGE * slot))
    && (forall x :: 0 <= x < |device| && !(SECTORS_PER_PAGE * slot <= x < SECTORS_PER_PAGE * slot + n) ==>
        device'[x] == device[x])
  }

  lemma WrittenSlot(device: seq<Sector>, device': seq<Sector>, slot: nat, p: Page, s: nat)
    requires SlotWritten(device, device', slot, p, SECTORS_PER_PAGE) &&
             SECTORS_PER_PAGE * s + SECTORS_PER_PAGE <= |device|
    ensures SlotPage(device', s) == if s == slot then p else SlotPage(device, s)
  {
    forall b | 0 <= b < PGSIZE ensures SlotPage(device', s)[b] == if s == slot then p[b] else SlotPage(device, s)[b] {
      var i, r := b / SECTOR_SIZE, b % SECTOR_SIZE;
      assert b == i * SECTOR_SIZE + r && i < SECTORS_PER_PAGE;
    }
  }

  predicate AllSlotsUsed(slots: seq<bool>) { forall s :: 0 <= s < |slots| ==> slots[s] }

  // ---- the whole of it -----------------------------------------------------------------------------

  function KeyOf(f: Frame): Key { (f.tid, f.upage) }

  predicate Dirty(ptes: map<Key, Pte>, k: Key) { k in ptes && ptes[k].dirty }

  predicate Accessed(ptes: map<Key, Pte>, k: Key) { k in ptes && ptes[k].accessed }

  /** Each frame is the frame of its own page, and no page has two. */
  ghost predicate FramesOk(frames: seq<Frame>, hasPd: set<int>, ptes: map<Key, Pte>, pages: map<nat, Page>)
  {
    && (forall i :: 0 <= i < |frames| ==> frames[i].kpage in pages)
    && (forall i :: 0 <= i < |frames| && frames[i].tid in hasPd ==>
        KeyOf(frames[i]) in ptes && ptes[KeyOf(frames[i])].kpage == frames[i].kpage)
    && (forall i, j :: 0 <= i < j < |frames| ==> KeyOf(frames[i]) != KeyOf(frames[j]))
  }

  /** A page recorded as in memory is mapped, of pages with an entry only such have frames, and every
      mapping goes to the page's own frame. */
  ghost predicate ResidentOk(frames: seq<Frame>, index: map<nat, nat>, ptes: map<Key, Pte>, spt: map<Key, Entry>)
  {
    && (forall k :: k in spt ==> WfEntry(spt[k]))
    && (forall k :: k in spt && spt[k].location == InMemory ==> k in ptes)
    && (forall i :: 0 <= i < |frames| && KeyOf(frames[i]) in spt ==> spt[KeyOf(frames[i])].location == InMemory)
    && (forall k :: k in ptes ==> ptes[k].kpage in index && OwnFrame(frames, index, ptes, k))
  }

  ghost predicate OwnFrame(frames: seq<Frame>, index: map<nat, nat>, ptes: map<Key, Pte>, k: Key)
    requires k in ptes && ptes[k].kpage in index
  {
    var i := index[ptes[k].kpage];
    i < |frames| && KeyOf(frames[i]) == k
  }

  /** The page table, one for each four megabytes of a thread, that has the page's mapping. */
  function TableOf(k: Key): Key { (k.0, k.1 / 0x40_0000) }

  /** A mapping is in a page table; a page in swap was mapped when it was found dirty, and tables stay. */
  ghost predicate TablesOk(ptes: map<Key, Pte>, spt: map<Key, Entry>, tables: set<Key>)
  {
    && (forall k :: k in ptes ==> TableOf(k) in tables)
    && (forall k :: k in spt && spt[k].location.InSwap? ==> TableOf(k) in tables)
  }

  /** Slots named by the table are reserved, and no two pages share one. */
  ghost predicate SwapOk(spt: map<Key, Entry>, slots: seq<bool>, device: seq<Sector>)
  {
    && |device| >= SECTORS_PER_PAGE * |slots|
    && (forall k :: k in spt && spt[k].location.InSwap? ==>
        spt[k].location.slot < |slots| && slots[spt[k].location.slot])
    && (forall k, k' :: k in spt && k' in spt && spt[k].location.InSwap? && spt[k'].location == spt[k].location ==>
        k == k')
  }

  /** The bytes of a page, wherever they are. */
  ghost function Held(k: Key, spt: map<Key, Entry>, ptes: map<Key, Pte>, pages: map<nat, Page>, device: seq<Sector>,
                      files: Files): Page
    requires k in spt
    requires spt[k].location == InMemory ==> k in ptes && ptes[k].kpage in pages
    requires spt[k].location.InSwap? ==> SECTORS_PER_PAGE * spt[k].location.slot + SECTORS_PER_PAGE <= |device|
  {
    match spt[k].location
    case InMemory => pages[ptes[k].kpage]
    case InSwap(s) => SlotPage(device, s)
    case OnDisk => FileBytes(spt[k], files)
    case Zero => ZeroPage()
  }

  // ---- what eviction changes --------------------------------------------------------------------------

  lemma FramesAfter(frames: seq<Frame>, hand: nat, hasPd: set<int>, ptes: map<Key, Pte>, pages: map<nat, Page>)
    requires FramesOk(frames, hasPd, ptes, pages) && hand < |frames|
    ensures FramesOk(Removed(frames, hand), hasPd, ptes - {KeyOf(frames[hand])}, pages)
    ensures forall f :: f in Removed(frames, hand) ==> KeyOf(f) != KeyOf(frames[hand])
  {
    var rest := Removed(frames, hand);
    forall i | 0 <= i < |rest| ensures KeyOf(rest[i]) != KeyOf(frames[hand]) && rest[i] in frames {
      assert rest[i] == frames[if i < hand then i else i + 1];
    }
  }

  /** The frame of a resident page is still its frame once another has left the table. */
  lemma OwnFrameAfter(frames: seq<Frame>, index: map<nat, nat>, index': map<nat, nat>, ptes: map<Key, Pte>,
                      hand: nat, k: Key)
    requires IndexOk(frames, index) && hand < |frames| && k in ptes && ptes[k].kpage in index &&
             OwnFrame(frames, index, ptes, k)
    requires IndexOk(Removed(frames, hand), index') && k != KeyOf(frames[hand])
    ensures ptes[k].kpage in index' && OwnFrame(Removed(frames, hand), index', ptes - {KeyOf(frames[hand])}, k)
  {
    var i, rest := index[ptes[k].kpage], Removed(frames, hand);
    var j := if i < hand then i else i - 1;
    assert rest[j] == frames[i];
  }

  lemma ResidentAfter(frames: seq<Frame>, index: map<nat, nat>, index': map<nat, nat>, ptes: map<Key, Pte>,
                      spt: map<Key, Entry>, spt': map<Key, Entry>, hand: nat)
    requires IndexOk(frames, index) && hand < |frames| && ResidentOk(frames, index, ptes, spt)
    requires IndexOk(Removed(frames, hand), index') && spt'.Keys == spt.Keys &&
             (forall k :: k in spt' ==> WfEntry(spt'[k]))
    requires forall k :: k in spt && k != KeyOf(frames[hand]) ==> spt'[k] == spt[k]
    requires KeyOf(frames[hand]) in spt' ==> spt'[KeyOf(frames[hand])].location != InMemory
    requires forall f :: f in Removed(frames, hand) ==> KeyOf(f) != KeyOf(frames[hand])
    ensures ResidentOk(Removed(frames, hand), index', ptes - {KeyOf(frames[hand])}, spt')
  {
    hide IndexOk, OwnFrame;
    var rest := Removed(frames, hand);
    forall k | k in ptes - {KeyOf(frames[hand])}
      ensures ptes[k].kpage in index' && OwnFrame(rest, index', ptes - {KeyOf(frames[hand])}, k)
    {
      OwnFrameAfter(frames, index, index', ptes, hand, k);
    }
    forall i | 0 <= i < |rest| && KeyOf(rest[i]) in spt' ensures spt'[KeyOf(rest[i])].location == InMemory {
      assert rest[i] == frames[if i < hand then i else i + 1] && rest[i] in rest;
    }
  }

  /** Either the page goes to a free slot, or the swap device is not touched. */
  ghost predicate Moved(loc: Location, slots: seq<bool>, slots': seq<bool>, device: seq<Sector>,
                        device': seq<Sector>, p: Page)
  {
    if loc.InSwap? then
      loc.slot < |slots| && !slots[loc.slot] && slots' == slots[loc.slot := true] &&
          SlotWritten(device, device', loc.slot, p, SECTORS_PER_PAGE)
    else slots' == slots && device' == device
  }

  lemma SwapAfter(spt: map<Key, Entry>, spt': map<Key, Entry>, k: Key, loc: Location, slots: seq<bool>,
                  slots': seq<bool>,
                  device: seq<Sector>, device': seq<Sector>, p: Page)
    requires SwapOk(spt, slots, device) && Moved(loc, slots, slots', device, device', p) && spt'.Keys == spt.Keys
    requires forall m :: m in spt && m != k ==> spt'[m] == spt[m]
    requires k in spt ==> spt'[k].location == loc
    ensures SwapOk(spt', slots', device')
  {}

  /** A page that is not the victim holds the same bytes before and after. */
  lemma HeldAfter(k: Key, v: Key, spt: map<Key, Entry>, spt': map<Key, Entry>, ptes: map<Key, Pte>, pages: map<nat,
                  Page>,
                  loc: Location, slots: seq<bool>, slots': seq<bool>, device: seq<Sector>, device': seq<Sector>,
                      p: Page, files: Files)
    requires k in spt && k in spt' && spt'[k] == spt[k] && k != v && SwapOk(spt, slots, device)
    requires spt[k].location == InMemory ==> k in ptes && ptes[k].kpage in pages
    requires Moved(loc, slots, slots', device, device', p)
    ensures Held(k, spt', ptes - {v}, pages, device', files) == Held(k, spt, ptes, pages, device, files)
  {
    if loc.InSwap? && spt[k].location.InSwap? {
      WrittenSlot(device, device', loc.slot, p, spt[k].location.slot);
    }
  }

  // ---- the state as a value ---------------------------------------------------------------------------

  datatype State = State(frames: seq<Frame>, index: map<nat, nat>, hasPd: set<int>, tables: set<Key>,
                         ptes: map<Key, Pte>, hasSpt: set<int>, spt: map<Key, Entry>, pages: map<nat, Page>,
                         slots: seq<bool>, device: seq<Sector>)

  ghost predicate Ok(s: State)
  {
    && IndexOk(s.frames, s.index) && FramesOk(s.frames, s.hasPd, s.ptes, s.pages)
    && ResidentOk(s.frames, s.index, s.ptes, s.spt)
    && SwapOk(s.spt, s.slots, s.device) && (forall k :: k in s.spt ==> k.0 in s.hasSpt)
    && TablesOk(s.ptes, s.spt, s.tables)
  }

  lemma Locatable(s: State, k: Key)
    requires Ok(s) && k in s.spt
    ensures s.spt[k].location == InMemory ==> k in s.ptes && s.ptes[k].kpage in s.pages
    ensures s.spt[k].location.InSwap? ==> SECTORS_PER_PAGE * s.spt[k].location.slot + SECTORS_PER_PAGE <= |s.device|
  {
    if s.spt[k].location == InMemory { assert OwnFrame(s.frames, s.index, s.ptes, k); }
  }

  /** The bytes of a page that has an entry, wherever they are. */
  ghost function PageBytes(s: State, k: Key, files: Files): Page
    requires Ok(s) && k in s.spt
  {
    Locatable(s, k);
    Held(k, s.spt, s.ptes, s.pages, s.device, files)
  }

  /** s' is s with the frame under the hand thrown out and its page recorded at loc. */
  ghost predicate EvictedTo(s: State, s': State, hand: nat, loc: Location)
    requires hand < |s.frames|
  {
    var v := KeyOf(s.frames[hand]);
    && s'.frames == Removed(s.frames, hand) && IndexOk(s'.frames, s'.index)
    && s'.index.Keys == s.index.Keys - {s.frames[hand].kpage}
    && s'.hasPd == s.hasPd && s'.tables == s.tables && s'.hasSpt == s.hasSpt && s'.pages == s.pages &&
        s'.ptes == s.ptes - {v}
    && loc != InMemory && s'.spt == (if v in s.spt then s.spt[v := s.spt[v].(location := loc)] else s.spt)
    && s.frames[hand].kpage in s.pages
    && Moved(loc, s.slots, s'.slots, s.device, s'.device, s.pages[s.frames[hand].kpage])
    && (loc.InSwap? <==> Dirty(s.ptes, v)) && (v in s.spt && !Dirty(s.ptes, v) ==> loc == CleanLocation(s.spt[v]))
  }

  lemma EvictedOk(s: State, s': State, hand: nat, loc: Location)
    requires Ok(s) && hand < |s.frames| && EvictedTo(s, s', hand, loc)
    ensures Ok(s')
  {
    hide FramesOk, SwapOk, IndexOk, ResidentOk, Moved, Removed;
    var v, p := KeyOf(s.frames[hand]), s.pages[s.frames[hand].kpage];
    FramesAfter(s.frames, hand, s.hasPd, s.ptes, s.pages);
    WfEntries(s);
    ResidentAfter(s.frames, s.index, s'.index, s.ptes, s.spt, s'.spt, hand);
    SwapAfter(s.spt, s'.spt, v, loc, s.slots, s'.slots, s.device, s'.device, p);
  }

  lemma WfEntries(s: State)
    requires Ok(s)
    ensures forall k :: k in s.spt ==> WfEntry(s.spt[k])
  {}

  /** Eviction keeps the bytes of every other page; those of its own page it keeps exactly when the
      page was dirty or held just what a reload will give. */
  lemma EvictionKeepsBytes(s: State, s': State, hand: nat, loc: Location, k: Key, files: Files)
    requires Ok(s) && Ok(s') && hand < |s.frames| && s.frames[hand].tid in s.hasPd && EvictedTo(s, s', hand, loc) &&
             k in s.spt
    ensures k in s'.spt
    ensures var v := KeyOf(s.frames[hand]);
            PageBytes(s', k, files) == PageBytes(s, k, files) <==>
              k != v || Dirty(s.ptes, v) || PageBytes(s, v, files) == Reloaded(s.spt[v], files)
  {
    hide Ok, EvictedTo, PageBytes, Reloaded, Dirty;
    EvictionKeys(s, s', hand, loc);
    if k != KeyOf(s.frames[hand]) {
      OthersKept(s, s', hand, loc, k, files);
    } else {
      VictimKept(s, s', hand, loc, files);
    }
  }

  lemma EvictionKeys(s: State, s': State, hand: nat, loc: Location)
    requires hand < |s.frames| && EvictedTo(s, s', hand, loc)
    ensures s'.spt.Keys == s.spt.Keys
  {}

  lemma OthersKept(s: State, s': State, hand: nat, loc: Location, k: Key, files: Files)
    requires Ok(s) && Ok(s') && hand < |s.frames| && EvictedTo(s, s', hand, loc) && k in s.spt
    requires k != KeyOf(s.frames[hand])
    ensures k in s'.spt && PageBytes(s', k, files) == PageBytes(s, k, files)
  {
    hide Ok, IndexOk, Moved, SwapOk, Held, Removed;
    var v, p := KeyOf(s.frames[hand]), s.pages[s.frames[hand].kpage];
    Locatable(s, k);
    Locatable(s', k);
    OtherEntry(s, s', hand, loc, k);
    HeldAfter(k, v, s.spt, s'.spt, s.ptes, s.pages, loc, s.slots, s'.slots, s.device, s'.device, p, files);
  }

  lemma VictimKept(s: State, s': State, hand: nat, loc: Location, files: Files)
    requires Ok(s) && Ok(s') && hand < |s.frames| && s.frames[hand].tid in s.hasPd && EvictedTo(s, s', hand, loc)
    requires KeyOf(s.frames[hand]) in s.spt
    ensures var v := KeyOf(s.frames[hand]);
            v in s'.spt && (PageBytes(s', v, files) == PageBytes(s, v, files) <==>
                              Dirty(s.ptes, v) || PageBytes(s, v, files) == Reloaded(s.spt[v], files))
  {
    hide Ok, IndexOk, SwapOk, Removed, SlotPage, Dirty;
    var v, p := KeyOf(s.frames[hand]), s.pages[s.frames[hand].kpage];
    VictimBytes(s, hand, files);
    Locatable(s', v);
    if loc.InSwap? { WrittenSlot(s.device, s'.device, loc.slot, p, loc.slot); }
    assert FileBytes(s'.spt[v], files) == FileBytes(s.spt[v], files);
  }

  lemma OtherEntry(s: State, s': State, hand: nat, loc: Location, k: Key)
    requires Ok(s) && hand < |s.frames| && EvictedTo(s, s', hand, loc) && k in s.spt && k != KeyOf(s.frames[hand])
    ensures SwapOk(s.spt, s.slots, s.device) && k in s'.spt && s'.spt[k] == s.spt[k]
    ensures s.spt[k].location == InMemory ==> k in s.ptes && s.ptes[k].kpage in s.pages
  {
    Locatable(s, k);
  }

  /** The page under the hand is in memory, and its bytes are those of the frame. */
  lemma VictimBytes(s: State, hand: nat, files: Files)
    requires Ok(s) && hand < |s.frames| && s.frames[hand].tid in s.hasPd && KeyOf(s.frames[hand]) in s.spt
    ensures var v := KeyOf(s.frames[hand]);
            && s.spt[v].location == InMemory && s.frames[hand].kpage in s.pages
            && PageBytes(s, v, files) == s.pages[s.frames[hand].kpage]
  {}

  // ---- the clock ----------------------------------------------------------------------------------------

  /** A frame the clock cannot take. */
  ghost predicate Stuck(s: State, i: nat)
    requires i < |s.frames|
  {
    s.frames[i].pinned || s.frames[i].tid !in s.hasPd || (Dirty(s.ptes, KeyOf(s.frames[i])) && AllSlotsUsed(s.slots))
  }

  /** Nothing but accessed bits has changed, and those only from set to clear. */
  ghost predicate Aged(s: State, s': State)
  {
    && s' == s.(ptes := s'.ptes) && s'.ptes.Keys == s.ptes.Keys
    && forall k :: k in s.ptes ==> s'.ptes[k] == s.ptes[k] || s'.ptes[k] == s.ptes[k].(accessed := false)
  }

  /** Nothing but accessed bits has changed. */
  ghost predicate Marked(s: State, s': State)
  {
    && s' == s.(ptes := s'.ptes) && s'.ptes.Keys == s.ptes.Keys
    && forall k :: k in s.ptes ==> s'.ptes[k] == s.ptes[k].(accessed := s'.ptes[k].accessed)
  }

  lemma MarkedOk(s: State, s': State)
    requires Ok(s) && Marked(s, s')
    ensures Ok(s') && forall i :: 0 <= i < |s.frames| ==> (Stuck(s', i) <==> Stuck(s, i))
  {
    hide IndexOk, SwapOk, AllSlotsUsed;
    forall k | k in s'.ptes ensures s'.ptes[k].kpage in s'.index && OwnFrame(s'.frames, s'.index, s'.ptes, k) {
      assert OwnFrame(s.frames, s.index, s.ptes, k);
    }
  }

  lemma MarkedBytes(s: State, s': State, k: Key, files: Files)
    requires Ok(s) && Marked(s, s') && Ok(s') && k in s.spt
    ensures PageBytes(s', k, files) == PageBytes(s, k, files)
  {
    hide IndexOk, SwapOk, FramesOk, ResidentOk;
    Locatable(s, k);
    Locatable(s', k);
  }

  /** The clock counter, which wraps. */
  function Ticked(clock: nat): nat { (clock + 1) % USIZE }

  function Ticks(clock: nat, n: nat): nat { (clock + n) % USIZE }

  lemma Tick(clock: nat, n: nat)
    ensures Ticked(Ticks(clock, n)) == Ticks(clock, n + 1) < USIZE && Ticks(clock, n) < USIZE
    ensures clock + n < USIZE ==> Ticks(clock, n) == clock + n
  {}

  function Hand(clock: nat, len: nat, d: nat): (i: nat)
    requires 0 < len
    ensures i < len
  {
    (clock + d) % len
  }

  /** After n ticks: frames passed once are stuck or no longer accessed, frames passed twice are stuck. */
  ghost predicate Scanned(s: State, clock: nat, n: nat)
    requires 0 < |s.frames|
  {
    && (forall d :: 0 <= d < n ==>
        var i := Hand(clock, |s.frames|, d); Stuck(s, i) || !Accessed(s.ptes, KeyOf(s.frames[i])))
    && (forall d :: 0 <= d < n - |s.frames| ==> Stuck(s, Hand(clock, |s.frames|, d)))
  }

  lemma ScannedAged(s: State, s': State, clock: nat, n: nat)
    requires 0 < |s.frames| && Scanned(s, clock, n) && Aged(s, s')
    ensures Scanned(s', clock, n)
  {}

  /** A frame passed over the second time is stuck. */
  lemma ScannedNext(s: State, clock: nat, n: nat)
    requires 0 < |s.frames| && Scanned(s, clock, n) && n < 2 * |s.frames|
    requires var i := Hand(clock, |s.frames|, n);
             Stuck(s, i) || (!Accessed(s.ptes, KeyOf(s.frames[i])) && n < |s.frames|)
    ensures Scanned(s, clock, n + 1)
  {
    var len := |s.frames|;
    if n >= len { OneRotationLater(clock + (n - len), len); }
  }

  /** On the second pass a frame is no longer accessed. */
  lemma SecondPass(s: State, clock: nat, n: nat)
    requires 0 < |s.frames| && Scanned(s, clock, n) && |s.frames| <= n < 2 * |s.frames|
    ensures var i := Hand(clock, |s.frames|, n); Stuck(s, i) || !Accessed(s.ptes, KeyOf(s.frames[i]))
  {
    var len := |s.frames|;
    OneRotationLater(clock + (n - len), len);
    assert Hand(clock, len, n) == Hand(clock, len, n - len);
  }

  lemma TwoRotations(s: State, clock: nat)
    requires 0 < |s.frames| && Scanned(s, clock, 2 * |s.frames|)
    ensures forall i :: 0 <= i < |s.frames| ==> Stuck(s, i)
  {
    forall i | 0 <= i < |s.frames| ensures Stuck(s, i) {
      var d := EveryFrameIsVisited(clock, |s.frames|, i);
      assert Hand(clock, |s.frames|, d) == i;
    }
  }

  // ---- the clock's choice -----------------------------------------------------------------------------------

  ghost predicate Used(s: State, i: nat)
    requires i < |s.frames|
  {
    Accessed(s.ptes, KeyOf(s.frames[i]))
  }

  /** After n ticks without a victim: the frames passed in the first rotation were stuck or used when
      it began, and those not reached yet are as they were then. */
  ghost predicate Passing(s0: State, s: State, clock: nat, n: nat)
    requires 0 < |s0.frames| && s.frames == s0.frames
  {
    var len := |s0.frames|;
    && (forall d :: 0 <= d < n && d < len ==> Stuck(s0, Hand(clock, len, d)) || Used(s0, Hand(clock, len, d)))
    && (forall d :: n <= d < len ==> (Used(s, Hand(clock, len, d)) <==> Used(s0, Hand(clock, len, d))))
  }

  /** Second chance: the victim is the first frame, from the hand on, that is neither stuck nor used; if
      there is none, the first that is not stuck. */
  ghost predicate ClockChoice(s: State, clock: nat, d: nat)
    requires 0 < |s.frames|
  {
    var len := |s.frames|;
    && d < 2 * len && !Stuck(s, Hand(clock, len, d))
    && if d < len then
         && !Used(s, Hand(clock, len, d))
         && forall e :: 0 <= e < d ==> Stuck(s, Hand(clock, len, e)) || Used(s, Hand(clock, len, e))
       else
         && (forall e :: 0 <= e < len ==> Stuck(s, Hand(clock, len, e)) || Used(s, Hand(clock, len, e)))
         && forall e :: 0 <= e < d - len ==> Stuck(s, Hand(clock, len, e))
  }

  lemma HandsDiffer(clock: nat, len: nat, d: nat, e: nat)
    requires d < e < len
    ensures Hand(clock, len, d) != Hand(clock, len, e)
  {
    var q, r := (clock + d) / len, (clock + d) % len;
    assert clock + d == len * q + r;
    var x := r + (e - d);
    if x < len {
      assert clock + e == len * q + x;
      Remainder(len, q, x);
    } else {
      assert clock + e == len * (q + 1) + (x - len);
      Remainder(len, q + 1, x - len);
    }
  }

  lemma KeysDiffer(s: State, i: nat, j: nat)
    requires Ok(s) && i < |s.frames| && j < |s.frames| && i != j
    ensures KeyOf(s.frames[i]) != KeyOf(s.frames[j])
  {
    hide IndexOk, ResidentOk, SwapOk;
  }

  ghost predicate OnlyKey(s: State, s': State, k: Key)
  {
    s'.ptes.Keys == s.ptes.Keys && forall m :: m in s.ptes && m != k ==> s'.ptes[m] == s.ptes[m]
  }

  lemma PassingNext(s0: State, s1: State, s: State, clock: nat, n: nat)
    requires Ok(s0) && 0 < |s0.frames| && s1.frames == s0.frames && s.frames == s0.frames && n < 2 * |s0.frames|
    requires Passing(s0, s1, clock, n) && OnlyKey(s1, s, KeyOf(s0.frames[Hand(clock, |s0.frames|, n)]))
    requires var i := Hand(clock, |s0.frames|, n); Stuck(s0, i) || Used(s1, i)
    ensures Passing(s0, s, clock, n + 1)
  {
    hide Ok, Stuck, Hand;
    var len := |s0.frames|;
    forall d | n + 1 <= d < len ensures Used(s, Hand(clock, len, d)) <==> Used(s0, Hand(clock, len, d)) {
      HandsDiffer(clock, len, n, d);
      KeysDiffer(s0, Hand(clock, len, n), Hand(clock, len, d));
    }
  }

  lemma Chosen(s0: State, s1: State, clock: nat, n: nat)
    requires Ok(s0) && 0 < |s0.frames| && s1.frames == s0.frames && n < 2 * |s0.frames|
    requires Passing(s0, s1, clock, n) && Scanned(s1, clock, n)
    requires forall i :: 0 <= i < |s0.frames| ==> (Stuck(s1, i) <==> Stuck(s0, i))
    requires !Stuck(s0, Hand(clock, |s0.frames|, n)) && !Used(s1, Hand(clock, |s0.frames|, n))
    ensures ClockChoice(s0, clock, n)
  {
    hide Ok, Stuck, Hand;
  }

  // ---- reloading ----------------------------------------------------------------------------------------

  /** The page is dirty, or holds what a reload would give. */
  ghost predicate CleanIsSaved(s: State, k: Key, files: Files)
    requires Ok(s) && k in s.spt
  {
    Dirty(s.ptes, k) || PageBytes(s, k, files) == Reloaded(s.spt[k], files)
  }

  /** Every page has the same bytes. */
  ghost predicate SameBytes(s: State, s': State, files: Files)
  {
    Ok(s) && Ok(s') && s'.spt.Keys == s.spt.Keys && forall k :: k in s.spt ==>
        PageBytes(s', k, files) == PageBytes(s, k, files)
  }

  /** Entries of pages that are not in memory are untouched. */
  ghost predicate SameAbsent(spt: map<Key, Entry>, spt': map<Key, Entry>)
  {
    forall k :: k in spt && spt[k].location != InMemory ==> k in spt' && spt'[k] == spt[k]
  }

  /** A page keeps its bytes if it was out of memory, or dirty, or equal to what a reload gives. */
  ghost predicate Keeps(s: State, s': State, files: Files)
  {
    && Ok(s) && Ok(s') && s'.spt.Keys == s.spt.Keys
    && forall k :: k in s.spt && (s.spt[k].location != InMemory || CleanIsSaved(s, k, files)) ==>
         PageBytes(s', k, files) == PageBytes(s, k, files)
  }

  lemma MarkedKeeps(s: State, s': State, s'': State, files: Files)
    requires Ok(s) && Marked(s, s') && Keeps(s', s'', files)
    ensures Keeps(s, s'', files)
  {
    hide Ok, PageBytes, Reloaded;
    forall k | k in s.spt ensures PageBytes(s', k, files) == PageBytes(s, k, files) { MarkedBytes(s, s', k, files); }
  }

  lemma EvictionSpares(s: State, s': State, hand: nat, loc: Location)
    requires Ok(s) && hand < |s.frames| && EvictedTo(s, s', hand, loc)
    ensures SameAbsent(s.spt, s'.spt) && s.frames[hand].kpage !in s'.index
    ensures KeyOf(s.frames[hand]) in s.spt ==> s.spt[KeyOf(s.frames[hand])].location == InMemory
  {}

  lemma EvictedKeeps(s: State, s': State, hand: nat, loc: Location, files: Files)
    requires Ok(s) && Ok(s') && hand < |s.frames| && s.frames[hand].tid in s.hasPd && EvictedTo(s, s', hand, loc)
    ensures Keeps(s, s', files) && SameAbsent(s.spt, s'.spt) && s.frames[hand].kpage !in s'.index
  {
    hide Ok, PageBytes, Reloaded, EvictedTo, Dirty;
    EvictionKeys(s, s', hand, loc);
    EvictionSpares(s, s', hand, loc);
    forall k | k in s.spt && (s.spt[k].location != InMemory || CleanIsSaved(s, k, files))
      ensures PageBytes(s', k, files) == PageBytes(s, k, files)
    {
      EvictionKeepsBytes(s, s', hand, loc, k, files);
    }
  }

  lemma KeepsSelf(s: State, files: Files)
    requires Ok(s)
    ensures Keeps(s, s, files)
  {}

  lemma KeepsThenSame(s: State, s': State, s'': State, files: Files)
    requires Keeps(s, s', files) && SameBytes(s', s'', files)
    ensures Keeps(s, s'', files)
  {
    hide Ok, PageBytes, Reloaded;
  }

  /** Writing to a page that belongs to no frame. */
  lemma FreePageWritten(s: State, kpage: nat, p: Page, files: Files)
    requires Ok(s) && kpage !in s.index
    ensures Ok(s.(pages := s.pages[kpage := p])) && SameBytes(s, s.(pages := s.pages[kpage := p]), files)
  {
    var s' := s.(pages := s.pages[kpage := p]);
    assert Ok(s');
    forall k | k in s.spt ensures PageBytes(s', k, files) == PageBytes(s, k, files) {
      Locatable(s, k);
    }
  }

  /** The state once page p of key k sits in frame kpage. */
  ghost function Mapped(s: State, k: Key, kpage: nat, p: Page): State
    requires k in s.spt
  {
    var loc := s.spt[k].location;
    s.(frames := s.frames + [Frame(kpage, k.1, k.0, false)], index := s.index[kpage := |s.frames|],
       tables := s.tables + {TableOf(k)}, ptes := s.ptes[k := Pte(kpage, false, false)],
       spt := s.spt[k := s.spt[k].(location := InMemory)], pages := s.pages[kpage := p],
       slots := if loc.InSwap? && loc.slot < |s.slots| then s.slots[loc.slot := false] else s.slots)
  }

  lemma MappedFrames(s: State, k: Key, kpage: nat, p: Page)
    requires Ok(s) && k in s.spt && s.spt[k].location != InMemory && kpage !in s.index
    ensures var s' := Mapped(s, k, kpage, p);
            IndexOk(s'.frames, s'.index) && FramesOk(s'.frames, s'.hasPd, s'.ptes, s'.pages)
  {
    hide IndexOk, SwapOk, OwnFrame, TablesOk;
    PushedIndex(s.frames, s.index, Frame(kpage, k.1, k.0, false));
    forall i | 0 <= i < |s.frames| ensures KeyOf(s.frames[i]) != k {}
  }

  lemma MappedResident(s: State, k: Key, kpage: nat, p: Page)
    requires Ok(s) && k in s.spt && s.spt[k].location != InMemory && kpage !in s.index
    ensures var s' := Mapped(s, k, kpage, p); ResidentOk(s'.frames, s'.index, s'.ptes, s'.spt)
  {
    var s' := Mapped(s, k, kpage, p);
    forall m | m in s'.ptes ensures s'.ptes[m].kpage in s'.index && OwnFrame(s'.frames, s'.index, s'.ptes, m) {
      if m != k { assert OwnFrame(s.frames, s.index, s.ptes, m); }
    }
  }

  lemma MappedSwap(s: State, k: Key, kpage: nat, p: Page)
    requires SwapOk(s.spt, s.slots, s.device) && TablesOk(s.ptes, s.spt, s.tables) && k in s.spt
    ensures var s' := Mapped(s, k, kpage, p);
            SwapOk(s'.spt, s'.slots, s'.device) && TablesOk(s'.ptes, s'.spt, s'.tables)
  {}

  lemma MappedOk(s: State, k: Key, kpage: nat, p: Page)
    requires Ok(s) && k in s.spt && s.spt[k].location != InMemory && kpage !in s.index
    ensures Ok(Mapped(s, k, kpage, p))
  {
    hide IndexOk, FramesOk, ResidentOk, SwapOk, TablesOk;
    MappedFrames(s, k, kpage, p);
    MappedResident(s, k, kpage, p);
    MappedSwap(s, k, kpage, p);
  }

  /** Mapping a page's own bytes changes no page's bytes. */
  lemma MappedSameBytes(s: State, k: Key, kpage: nat, p: Page, files: Files)
    requires Ok(s) && k in s.spt && s.spt[k].location != InMemory && kpage !in s.index && p == PageBytes(s, k, files)
    ensures Ok(Mapped(s, k, kpage, p)) && SameBytes(s, Mapped(s, k, kpage, p), files)
  {
    hide Ok, SlotPage;
    MappedOk(s, k, kpage, p);
    var s' := Mapped(s, k, kpage, p);
    forall m | m in s.spt ensures PageBytes(s', m, files) == PageBytes(s, m, files) {
      Locatable(s, m);
      Locatable(s', m);
      if m != k && s.spt[m].location == InMemory { OwnPage(s, m); }
    }
  }

  lemma OwnPage(s: State, k: Key)
    requires Ok(s) && k in s.ptes
    ensures s.ptes[k].kpage in s.index && OwnFrame(s.frames, s.index, s.ptes, k) && s.ptes[k].kpage in s.pages
  {}

  lemma ReloadedMoved(e: Entry, loc: Location, files: Files)
    ensures Reloaded(e.(location := loc), files) == Reloaded(e, files)
  {
    assert FileBytes(e.(location := loc), files) == FileBytes(e, files);
  }
}
