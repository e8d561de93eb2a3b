/**
 The block tree of an inode: direct, indirect and doubly indirect pointers.

 Every sector an inode may own has a slot.  A slot other than `Self` is a
 word in the sector of its parent slot, so looking a block up is one
 recursion and the ownership invariant is one statement about slots.
 */
module FsTree {
  import opened FsBytes

  const DIRECT_CNT := 12
  const INDIRECT_END := 140            // 12 + 128
  const BLOCK_CNT := 16524             // 12 + 128 + 128 * 128
  const MAX_BYTES := 8460288           // 512 * BLOCK_CNT

  // words of the on-disk inode
  const W_INDIRECT := 12
  const W_DOUBLY := 13
  const W_LENGTH := 14
  const W_WRITE_END := 15
  const W_MAGIC := 16
  const INODE_MAGIC := 0x494e4f44
  const DIR_BYTE := 68

  datatype Slot = Self | Data(k: nat) | Indirect | Doubly | Inner(j: nat)

  predicate ValidSlot(s: Slot)
  {
    match s
    case Data(k) => k < BLOCK_CNT
    case Inner(j) => j < PTRS_PER_BLOCK
    case _ => true
  }

  /** The slot whose sector holds the pointer for s. */
  function Parent(s: Slot): Slot
    requires s != Self && ValidSlot(s)
  {
    match s
    case Data(k) =>
      if k < DIRECT_CNT then Self else if k < INDIRECT_END then Indirect else Inner((k - INDIRECT_END) / PTRS_PER_BLOCK)
    case Inner(_) => Doubly
    case _ => Self
  }

  /** The word of that sector in which it is held. */
  function Index(s: Slot): (i: nat)
    requires s != Self && ValidSlot(s)
    ensures i < PTRS_PER_BLOCK
  {
    match s
    case Data(k) =>
      if k < DIRECT_CNT then k else if k < INDIRECT_END then k - DIRECT_CNT else (k - INDIRECT_END) % PTRS_PER_BLOCK
    case Inner(j) => j
    case Indirect => W_INDIRECT
    case Doubly => W_DOUBLY
  }

  function Rank(s: Slot): nat
  {
    match s
    case Self => 0
    case Indirect => 1
    case Doubly => 1
    case Inner(_) => 2
    case Data(k) => if k < DIRECT_CNT then 1 else if k < INDIRECT_END then 2 else 3
  }

  lemma ParentValid(s: Slot)
    requires s != Self && ValidSlot(s)
    ensures ValidSlot(Parent(s)) && Rank(Parent(s)) < Rank(s) && !Parent(s).Data?
  {}

  /** Parent and index determine the slot. */
  lemma SlotPlace(s: Slot, t: Slot)
    requires s != Self && t != Self && ValidSlot(s) && ValidSlot(t)
    requires Parent(s) == Parent(t) && Index(s) == Index(t)
    ensures s == t
  {}

  type Disk = seq<Sector>

  /** The pointer in word i of sector p, the sector of slot par; a missing sector holds none. */
  function Deref(d: Disk, par: Slot, p: nat, i: nat): nat
    requires i < PTRS_PER_BLOCK
  {
    if p >= |d| || (par != Self && p == 0) then 0 else Word(d[p], i)
  }

  /** The sector in slot s of the inode at `ino`; 0 when there is none. */
  function At(d: Disk, ino: nat, s: Slot): nat
    requires ValidSlot(s)
    decreases Rank(s)
  {
    if s == Self then ino else Deref(d, Parent(s), At(d, ino, Parent(s)), Index(s))
  }

  predicate Owned(d: Disk, ino: nat, s: Slot)
  {
    ValidSlot(s) && (s == Self || At(d, ino, s) != 0)
  }

  /** Whatever is owned hangs below something owned. */
  lemma ParentOwned(d: Disk, ino: nat, s: Slot)
    requires s != Self && Owned(d, ino, s)
    ensures Owned(d, ino, Parent(s)) && At(d, ino, Parent(s)) < |d|
  {}

  predicate InUse(used: seq<bool>, x: nat) { x < |used| && used[x] }

  /** Sectors held by live inodes are marked used. */
  ghost predicate AllUsed(d: Disk, used: seq<bool>, live: set<nat>)
  {
    forall o, s :: o in live && Owned(d, o, s) ==> InUse(used, At(d, o, s))
  }

  /** No sector is held in two slots, of one inode or of two. */
  ghost predicate OneOwner(d: Disk, live: set<nat>)
  {
    forall o, s, o', s' :: o in live && o' in live && Owned(d, o, s) && Owned(d, o', s') && At(d, o, s) == At(d, o', s')
      ==> o == o' && s == s'
  }

  lemma SameOwner(d: Disk, live: set<nat>, o: nat, s: Slot, o': nat, s': Slot)
    requires OneOwner(d, live) && o in live && o' in live && Owned(d, o, s) && Owned(d, o', s') &&
             At(d, o, s) == At(d, o', s')
    ensures o == o' && s == s'
  {}

  lemma DifferentSlots(d: Disk, live: set<nat>, o: nat, s: Slot, o': nat, s': Slot)
    requires OneOwner(d, live) && o in live && o' in live && Owned(d, o, s) && Owned(d, o', s') && (o != o' || s != s')
    ensures At(d, o, s) != At(d, o', s')
  {}

  ghost predicate Tree(d: Disk, used: seq<bool>, live: set<nat>)
  {
    |used| == |d| <= U32 && AllUsed(d, used, live) && OneOwner(d, live)
  }

  /** x belongs to no live inode. */
  ghost predicate Unowned(d: Disk, live: set<nat>, x: nat)
  {
    forall o, s :: o in live && Owned(d, o, s) ==> At(d, o, s) != x
  }

  lemma UnownedAt(d: Disk, live: set<nat>, x: nat, o: nat, s: Slot)
    requires Unowned(d, live, x) && o in live && Owned(d, o, s)
    ensures At(d, o, s) != x
  {}

  lemma UsedAt(d: Disk, used: seq<bool>, live: set<nat>, o: nat, s: Slot)
    requires AllUsed(d, used, live) && o in live && Owned(d, o, s)
    ensures InUse(used, At(d, o, s))
  {}

  lemma FreeIsUnowned(d: Disk, used: seq<bool>, live: set<nat>, x: nat)
    requires Tree(d, used, live) && !InUse(used, x)
    ensures Unowned(d, live, x)
  {}

  // ---- frames ------------------------------------------------------------------

  /** d' has the same pointer sectors for inode o as d. */
  ghost predicate SameMeta(d: Disk, d': Disk, o: nat)
  {
    |d'| == |d| &&
    forall s :: Owned(d, o, s) && !s.Data? && At(d, o, s) < |d| ==> d'[At(d, o, s)] == d[At(d, o, s)]
  }

  lemma {:induction false} AtFrame(d: Disk, d': Disk, o: nat, s: Slot)
    requires SameMeta(d, d', o) && ValidSlot(s)
    ensures At(d', o, s) == At(d, o, s)
    decreases Rank(s)
  {
    if s != Self {
      ParentValid(s);
      AtFrame(d, d', o, Parent(s));
      var p := At(d, o, Parent(s));
      if p < |d| && (Parent(s) == Self || p != 0) {
        assert Owned(d, o, Parent(s));
      }
    }
  }

  /** Changing one sector disturbs no inode that does not keep pointers in it. */
  lemma UpdateFrame(d: Disk, live: set<nat>, x: nat, c: Sector, o: nat)
    requires x < |d| && o in live
    requires forall s :: Owned(d, o, s) && !s.Data? ==> At(d, o, s) != x
    ensures SameMeta(d, d[x := c], o)
  {}

  /** Zero sector v and store its number in word i of sector p. */
  function LinkAt(d: Disk, p: nat, i: nat, v: nat): Disk
    requires p < |d| && i < PTRS_PER_BLOCK && v < |d| <= U32
  {
    d[v := ZeroSector()][p := SetWord(d[p], i, v)]
  }

  /** Linking sector v into the empty slot t of inode ino. */
  function Link(d: Disk, ino: nat, t: Slot, v: nat): (d': Disk)
    requires ValidSlot(t) && t != Self && At(d, ino, Parent(t)) < |d| && v < |d| <= U32
    ensures |d'| == |d|
  {
    LinkAt(d, At(d, ino, Parent(t)), Index(t), v)
  }

  ghost predicate Linkable(d: Disk, used: seq<bool>, live: set<nat>, ino: nat, t: Slot, v: nat)
  {
    && Tree(d, used, live) && ino in live
    && ValidSlot(t) && t != Self && !Owned(d, ino, t) && Owned(d, ino, Parent(t))
    && 0 < v < |d| && Unowned(d, live, v)
  }

  /** After linking, slot t holds v and every other slot of every live inode is as before. */
  lemma {:induction false} AtLink(d: Disk, used: seq<bool>, live: set<nat>, ino: nat, t: Slot, v: nat, o: nat, s: Slot)
    requires Linkable(d, used, live, ino, t, v) && o in live && ValidSlot(s)
    ensures At(d, ino, Parent(t)) < |d|
    ensures At(Link(d, ino, t, v), o, s) == if o == ino && s == t then v else At(d, o, s)
    decreases Rank(s)
  {
    hide Deref, OneOwner, Unowned, LinkAt;
    UsedAt(d, used, live, ino, Parent(t));
    if s != Self {
      ParentValid(s);
      AtLink(d, used, live, ino, t, v, o, Parent(s));
      DerefLink(d, used, live, ino, t, v, o, s);
    }
  }

  lemma DerefLink(d: Disk, used: seq<bool>, live: set<nat>, ino: nat, t: Slot, v: nat, o: nat, s: Slot)
    requires Linkable(d, used, live, ino, t, v) && o in live && ValidSlot(s) && s != Self
    requires At(d, ino, Parent(t)) < |d|
    ensures var q' := if o == ino && Parent(s) == t then v else At(d, o, Parent(s));
            Deref(Link(d, ino, t, v), Parent(s), q', Index(s)) == if o == ino && s == t then v else At(d, o, s)
  {
    hide Word, SetWord, ZeroSector, Parent, Rank, OneOwner, AllUsed, Unowned;
    ParentValid(s);
    ParentValid(t);
    var p, q := At(d, ino, Parent(t)), At(d, o, Parent(s));
    UnownedAt(d, live, v, ino, Parent(t));
    if o == ino && Parent(s) == t {
      WordOfZero(Index(s));
    } else if q < |d| && (Parent(s) == Self || q != 0) {
      UnownedAt(d, live, v, o, Parent(s));
      if q == p {
        SameOwner(d, live, o, Parent(s), ino, Parent(t));
        WordOfSetWord(d[p], Index(t), v, Index(s));
        if Index(s) == Index(t) { SlotPlace(s, t); }
      }
    }
  }

  lemma OwnedLink(d: Disk, used: seq<bool>, live: set<nat>, ino: nat, t: Slot, v: nat, o: nat, s: Slot)
    requires Linkable(d, used, live, ino, t, v) && o in live
    ensures At(d, ino, Parent(t)) < |d|
    ensures Owned(Link(d, ino, t, v), o, s) <==> Owned(d, o, s) || (o == ino && s == t)
    ensures Owned(Link(d, ino, t, v), o, s) ==>
            At(Link(d, ino, t, v), o, s) == if o == ino && s == t then v else At(d, o, s)
  {
    UsedAt(d, used, live, ino, Parent(t));
    hide Link, OneOwner, AllUsed, Unowned;
    if ValidSlot(s) { AtLink(d, used, live, ino, t, v, o, s); }
  }

  /** Linking a free sector keeps the ownership invariant. */
  lemma TreeLink(d: Disk, used: seq<bool>, live: set<nat>, ino: nat, t: Slot, v: nat)
    requires Linkable(d, used, live, ino, t, v)
    ensures At(d, ino, Parent(t)) < |d| && Tree(Link(d, ino, t, v), used[v := true], live)
  {
    UsedAt(d, used, live, ino, Parent(t));
    var d' := Link(d, ino, t, v);
    hide Link, Owned;
    forall o, s | o in live && Owned(d', o, s) ensures InUse(used[v := true], At(d', o, s)) {
      OwnedLink(d, used, live, ino, t, v, o, s);
    }
    forall o, s, o', s' | o in live && o' in live && Owned(d', o, s) && Owned(d', o', s') &&
        At(d', o, s) == At(d', o', s')
      ensures o == o' && s == s'
    {
      OwnedLink(d, used, live, ino, t, v, o, s);
      OwnedLink(d, used, live, ino, t, v, o', s');
    }
  }

  // ---- contents ------------------------------------------------------------------

  /** Byte pos of the file at ino, whatever its length: a missing block reads as zeros. */
  function ByteAt(d: Disk, ino: nat, pos: nat): Byte
    requires pos < MAX_BYTES
  {
    var x := At(d, ino, Data(pos / SECTOR_SIZE));
    if x == 0 || x >= |d| then 0 else d[x][pos % SECTOR_SIZE]
  }

  function Len(d: Disk, ino: nat): nat
    requires ino < |d|
  {
    Word(d[ino], W_LENGTH)
  }

  predicate IsDir(d: Disk, ino: nat)
    requires ino < |d|
  {
    d[ino][DIR_BYTE] != 0
  }

  /** A file of length len has no block and no non-zero byte beyond it. */
  ghost predicate Fits(d: Disk, ino: nat, len: nat)
  {
    && len <= MAX_BYTES
    && (forall k :: Owned(d, ino, Data(k)) ==> SECTOR_SIZE * k < len)
    && (forall pos :: len <= pos < MAX_BYTES ==> ByteAt(d, ino, pos) == 0)
  }

  /** The bytes of the file. */
  function Contents(d: Disk, ino: nat): (c: seq<Byte>)
    requires ino < |d| && Len(d, ino) <= MAX_BYTES
    ensures |c| == Len(d, ino)
  {
    seq(Len(d, ino), pos requires 0 <= pos < Len(d, ino) => ByteAt(d, ino, pos))
  }

  /** Inode o reads the same on d and d'. */
  ghost predicate SameFile(d: Disk, d': Disk, o: nat)
  {
    && |d'| == |d| && o < |d|
    && (forall s :: ValidSlot(s) ==> At(d', o, s) == At(d, o, s))
    && (forall pos :: 0 <= pos < MAX_BYTES ==> ByteAt(d', o, pos) == ByteAt(d, o, pos))
    && d'[o] == d[o]
  }

  lemma SameFileTrans(d: Disk, d': Disk, d'': Disk, o: nat)
    requires SameFile(d, d', o) && SameFile(d', d'', o)
    ensures SameFile(d, d'', o)
  {}

  lemma SameFileContents(d: Disk, d': Disk, o: nat)
    requires SameFile(d, d', o)
    ensures Len(d', o) == Len(d, o) && IsDir(d', o) == IsDir(d, o)
    ensures Len(d, o) <= MAX_BYTES ==> Contents(d', o) == Contents(d, o)
    ensures Fits(d, o, Len(d, o)) ==> Fits(d', o, Len(d', o))
  {}

  lemma ByteLink(d: Disk, used: seq<bool>, live: set<nat>, ino: nat, t: Slot, v: nat, o: nat, pos: nat)
    requires Linkable(d, used, live, ino, t, v) && o in live && pos < MAX_BYTES
    ensures At(d, ino, Parent(t)) < |d|
    ensures ByteAt(Link(d, ino, t, v), o, pos) == ByteAt(d, o, pos)
  {
    var s := Data(pos / SECTOR_SIZE);
    UsedAt(d, used, live, ino, Parent(t));
    AtLink(d, used, live, ino, t, v, o, s);
    ParentValid(t);
    hide OneOwner, AllUsed, Unowned, At, Word, SetWord;
    var x := At(d, o, s);
    if x != 0 {
      UnownedAt(d, live, v, o, s);
      DifferentSlots(d, live, o, s, ino, Parent(t));
    }
  }

  /** Linking changes no other file at all, and in its own file only the block list. */
  lemma LinkFrame(d: Disk, used: seq<bool>, live: set<nat>, ino: nat, t: Slot, v: nat, o: nat)
    requires Linkable(d, used, live, ino, t, v) && o in live && o != ino
    ensures At(d, ino, Parent(t)) < |d| && SameFile(d, Link(d, ino, t, v), o)
  {
    UsedAt(d, used, live, ino, Parent(t));
    UsedAt(d, used, live, o, Self);
    UnownedAt(d, live, v, o, Self);
    DifferentSlots(d, live, ino, Parent(t), o, Self);
    assert Link(d, ino, t, v)[o] == d[o];
    hide OneOwner, AllUsed, Unowned, Link;
    forall s | ValidSlot(s) ensures At(Link(d, ino, t, v), o, s) == At(d, o, s) {
      AtLink(d, used, live, ino, t, v, o, s);
    }
    forall pos | 0 <= pos < MAX_BYTES ensures ByteAt(Link(d, ino, t, v), o, pos) == ByteAt(d, o, pos) {
      ByteLink(d, used, live, ino, t, v, o, pos);
    }
  }

  /** Two disks with the same slots for every live inode have the same ownership. */
  lemma TreeSameSlots(d: Disk, d': Disk, used: seq<bool>, live: set<nat>)
    requires Tree(d, used, live) && |d'| == |d|
    requires forall o, s :: o in live && ValidSlot(s) ==> At(d', o, s) == At(d, o, s)
    ensures Tree(d', used, live)
  {
    forall o, s | o in live && Owned(d', o, s) ensures Owned(d, o, s) && At(d', o, s) == At(d, o, s) {}
  }

  // ---- writing a data block --------------------------------------------------------

  /** Writing a data block moves no pointer. */
  lemma AtDataWrite(d: Disk, used: seq<bool>, live: set<nat>, ino: nat, k: nat, c: Sector, o: nat, s: Slot)
    requires Tree(d, used, live) && ino in live && Owned(d, ino, Data(k)) && o in live && ValidSlot(s)
    ensures At(d, ino, Data(k)) < |d|
    ensures At(d[At(d, ino, Data(k)) := c], o, s) == At(d, o, s)
  {
    UsedAt(d, used, live, ino, Data(k));
    var x := At(d, ino, Data(k));
    forall s' | Owned(d, o, s') && !s'.Data? ensures At(d, o, s') != x {
      DifferentSlots(d, live, o, s', ino, Data(k));
    }
    UpdateFrame(d, live, x, c, o);
    AtFrame(d, d[x := c], o, s);
  }

  /** A data write changes exactly the bytes of its block in its file. */
  lemma ByteDataWrite(d: Disk, used: seq<bool>, live: set<nat>, ino: nat, k: nat, c: Sector, o: nat, pos: nat)
    requires Tree(d, used, live) && ino in live && Owned(d, ino, Data(k)) && o in live && pos < MAX_BYTES
    ensures At(d, ino, Data(k)) < |d|
    ensures ByteAt(d[At(d, ino, Data(k)) := c], o, pos) ==
            if o == ino && pos / SECTOR_SIZE == k then c[pos % SECTOR_SIZE] else ByteAt(d, o, pos)
  {
    var s := Data(pos / SECTOR_SIZE);
    AtDataWrite(d, used, live, ino, k, c, o, s);
    hide At, OneOwner, AllUsed;
    if At(d, o, s) != 0 && At(d, o, s) == At(d, ino, Data(k)) { SameOwner(d, live, o, s, ino, Data(k)); }
  }

  lemma DataWriteFrame(d: Disk, used: seq<bool>, live: set<nat>, ino: nat, k: nat, c: Sector, o: nat)
    requires Tree(d, used, live) && ino in live && Owned(d, ino, Data(k)) && o in live && o != ino
    ensures At(d, ino, Data(k)) < |d| && SameFile(d, d[At(d, ino, Data(k)) := c], o)
  {
    UsedAt(d, used, live, ino, Data(k));
    UsedAt(d, used, live, o, Self);
    var x := At(d, ino, Data(k));
    DifferentSlots(d, live, ino, Data(k), o, Self);
    forall s | ValidSlot(s) ensures At(d[x := c], o, s) == At(d, o, s) {
      AtDataWrite(d, used, live, ino, k, c, o, s);
    }
    forall pos | 0 <= pos < MAX_BYTES ensures ByteAt(d[x := c], o, pos) == ByteAt(d, o, pos) {
      ByteDataWrite(d, used, live, ino, k, c, o, pos);
    }
  }

  lemma TreeDataWrite(d: Disk, used: seq<bool>, live: set<nat>, ino: nat, k: nat, c: Sector)
    requires Tree(d, used, live) && ino in live && Owned(d, ino, Data(k))
    ensures At(d, ino, Data(k)) < |d| && Tree(d[At(d, ino, Data(k)) := c], used, live)
  {
    UsedAt(d, used, live, ino, Data(k));
    forall o, s | o in live && ValidSlot(s) ensures At(d[At(d, ino, Data(k)) := c], o, s) == At(d, o, s) {
      AtDataWrite(d, used, live, ino, k, c, o, s);
    }
    TreeSameSlots(d, d[At(d, ino, Data(k)) := c], used, live);
  }

  // ---- writing an inode sector -------------------------------------------------------

  /** An inode sector whose pointers are those of n. */
  ghost predicate SamePointers(n: Sector, n': Sector)
  {
    forall i :: 0 <= i <= W_DOUBLY ==> Word(n', i) == Word(n, i)
  }

  /** Rewriting an inode's other words moves no pointer. */
  lemma {:induction false} AtInodeWrite(d: Disk, used: seq<bool>, live: set<nat>, ino: nat, n: Sector, o: nat, s: Slot)
    requires Tree(d, used, live) && ino in live && ino < |d| && o in live && ValidSlot(s) && SamePointers(d[ino], n)
    ensures At(d[ino := n], o, s) == At(d, o, s)
    decreases Rank(s)
  {
    hide OneOwner, AllUsed, Word;
    if s != Self {
      ParentValid(s);
      AtInodeWrite(d, used, live, ino, n, o, Parent(s));
      var p := At(d, o, Parent(s));
      if p == ino && (Parent(s) == Self || p != 0) {
        SameOwner(d, live, o, Parent(s), ino, Self);
      }
    }
  }

  lemma InodeWrite(d: Disk, used: seq<bool>, live: set<nat>, ino: nat, n: Sector)
    requires Tree(d, used, live) && ino in live && ino < |d| && SamePointers(d[ino], n)
    ensures Tree(d[ino := n], used, live)
    ensures forall o :: o in live && o != ino ==> SameFile(d, d[ino := n], o)
    ensures forall s :: ValidSlot(s) ==> At(d[ino := n], ino, s) == At(d, ino, s)
    ensures forall pos :: 0 <= pos < MAX_BYTES ==> ByteAt(d[ino := n], ino, pos) == ByteAt(d, ino, pos)
  {
    var d' := d[ino := n];
    forall o, s | o in live && ValidSlot(s) ensures At(d', o, s) == At(d, o, s) {
      AtInodeWrite(d, used, live, ino, n, o, s);
    }
    TreeSameSlots(d, d', used, live);
    forall o, pos | o in live && 0 <= pos < MAX_BYTES ensures ByteAt(d', o, pos) == ByteAt(d, o, pos) {
      InodeWriteByte(d, used, live, ino, n, o, pos);
    }
    forall o | o in live && o != ino ensures SameFile(d, d', o) {
      UsedAt(d, used, live, o, Self);
    }
  }

  lemma InodeWriteByte(d: Disk, used: seq<bool>, live: set<nat>, ino: nat, n: Sector, o: nat, pos: nat)
    requires Tree(d, used, live) && ino in live && ino < |d| && SamePointers(d[ino], n)
    requires o in live && 0 <= pos < MAX_BYTES
    ensures ByteAt(d[ino := n], o, pos) == ByteAt(d, o, pos)
  {
    var s := Data(pos / SECTOR_SIZE);
    AtInodeWrite(d, used, live, ino, n, o, s);
    hide At, OneOwner, AllUsed, SamePointers;
    var x := At(d, o, s);
    if x != 0 { DifferentSlots(d, live, o, s, ino, Self); }
  }

  // ---- freeing ----------------------------------------------------------------------

  /** x is held by inode ino in a slot other than its own sector. */
  ghost predicate Holds(d: Disk, ino: nat, x: nat)
  {
    exists s :: s != Self && Owned(d, ino, s) && At(d, ino, s) == x
  }

  /** used' is used with exactly the blocks of ino cleared, and its own sector too if `whole`. */
  ghost predicate Freed(d: Disk, used: seq<bool>, ino: nat, whole: bool, used': seq<bool>)
  {
    |used'| == |used| &&
    forall x :: 0 <= x < |used| ==> (used'[x] <==> used[x] && !Holds(d, ino, x) && !(whole && x == ino))
  }

  /** An inode without blocks. */
  ghost predicate NoPointers(n: Sector)
  {
    forall i :: 0 <= i <= W_DOUBLY ==> Word(n, i) == 0
  }

  lemma {:induction false} AtReset(d: Disk, ino: nat, n: Sector, s: Slot)
    requires ino < |d| && NoPointers(n) && ValidSlot(s)
    ensures At(d[ino := n], ino, s) == if s == Self then ino else 0
    decreases Rank(s)
  {
    if s != Self {
      ParentValid(s);
      AtReset(d, ino, n, Parent(s));
      hide Word;
    }
  }

  lemma {:induction false} AtOther(d: Disk, used: seq<bool>, live: set<nat>, ino: nat, n: Sector, o: nat, s: Slot)
    requires Tree(d, used, live) && ino in live && ino < |d| && o in live && o != ino && ValidSlot(s)
    ensures At(d[ino := n], o, s) == At(d, o, s)
    decreases Rank(s)
  {
    hide OneOwner, AllUsed, Word;
    if s != Self {
      ParentValid(s);
      AtOther(d, used, live, ino, n, o, Parent(s));
      var p := At(d, o, Parent(s));
      if p == ino && (Parent(s) == Self || p != 0) {
        SameOwner(d, live, o, Parent(s), ino, Self);
      }
    }
  }

  lemma OtherFile(d: Disk, used: seq<bool>, live: set<nat>, ino: nat, n: Sector, o: nat)
    requires Tree(d, used, live) && ino in live && ino < |d| && o in live && o != ino
    ensures SameFile(d, d[ino := n], o)
  {
    UsedAt(d, used, live, o, Self);
    forall s | ValidSlot(s) ensures At(d[ino := n], o, s) == At(d, o, s) {
      AtOther(d, used, live, ino, n, o, s);
    }
    forall pos | 0 <= pos < MAX_BYTES ensures ByteAt(d[ino := n], o, pos) == ByteAt(d, o, pos) {
      var x := At(d, o, Data(pos / SECTOR_SIZE));
      if x != 0 { DifferentSlots(d, live, o, Data(pos / SECTOR_SIZE), ino, Self); }
    }
  }

  /** What another inode owns stays marked when the blocks of ino are freed. */
  lemma FreedSparesOthers(d: Disk, used: seq<bool>, live: set<nat>, ino: nat, whole: bool, used': seq<bool>, o: nat,
                          s: Slot)
    requires Tree(d, used, live) && ino in live && Freed(d, used, ino, whole, used')
    requires o in live && Owned(d, o, s) && (o != ino || (s == Self && !whole))
    ensures InUse(used', At(d, o, s))
  {
    UsedAt(d, used, live, o, s);
    assert !Holds(d, ino, At(d, o, s));
    assert whole ==> Owned(d, ino, Self);
  }

  /** Truncation: the inode is cleared and its blocks are freed. */
  lemma TreeReset(d: Disk, used: seq<bool>, live: set<nat>, ino: nat, n: Sector, used': seq<bool>)
    requires Tree(d, used, live) && ino in live && ino < |d| && NoPointers(n) && Freed(d, used, ino, false, used')
    ensures Tree(d[ino := n], used', live)
  {
    var d' := d[ino := n];
    hide Freed, NoPointers, AllUsed, OneOwner;
    forall o, s | o in live && Owned(d', o, s)
      ensures Owned(d, o, s) && At(d', o, s) == At(d, o, s) && InUse(used', At(d, o, s))
    {
      if o == ino { AtReset(d, ino, n, s); } else { AtOther(d, used, live, ino, n, o, s); }
      FreedSparesOthers(d, used, live, ino, false, used', o, s);
    }
    ResetInvariants(d, d', used, used', live);
  }

  lemma ResetInvariants(d: Disk, d': Disk, used: seq<bool>, used': seq<bool>, live: set<nat>)
    requires Tree(d, used, live) && |d'| == |d| && |used'| == |used|
    requires forall o, s :: o in live && Owned(d', o, s) ==>
             Owned(d, o, s) && At(d', o, s) == At(d, o, s) && InUse(used', At(d, o, s))
    ensures Tree(d', used', live)
  {}

  /** Freeing a removed inode: what remains live keeps the invariant. */
  lemma TreeDrop(d: Disk, used: seq<bool>, live: set<nat>, ino: nat, used': seq<bool>)
    requires Tree(d, used, live) && ino in live && Freed(d, used, ino, true, used')
    ensures Tree(d, used', live - {ino})
  {
    hide OneOwner;
    forall o, s | o in live - {ino} && Owned(d, o, s) ensures InUse(used', At(d, o, s)) {
      FreedSparesOthers(d, used, live, ino, true, used', o, s);
    }
    OneOwnerSubset(d, live, live - {ino});
  }

  lemma OneOwnerSubset(d: Disk, live: set<nat>, live': set<nat>)
    requires OneOwner(d, live) && live' <= live
    ensures OneOwner(d, live')
  {}

  /** A new inode without blocks in a used sector that nobody owns. */
  lemma TreeNew(d: Disk, used: seq<bool>, live: set<nat>, ino: nat, n: Sector)
    requires Tree(d, used, live) && InUse(used, ino) && Unowned(d, live, ino) && ino !in live
    ensures ino < |d|
    ensures forall o :: o in live ==> SameFile(d, d[ino := n], o)
  {
    forall o | o in live ensures SameFile(d, d[ino := n], o) {
      UnownedWrite(d, used, live, ino, n, o);
    }
  }

  /** Writing a sector nobody owns changes no file. */
  lemma UnownedWrite(d: Disk, used: seq<bool>, live: set<nat>, x: nat, c: Sector, o: nat)
    requires Tree(d, used, live) && x < |d| && Unowned(d, live, x) && o in live
    ensures SameFile(d, d[x := c], o)
  {
    UsedAt(d, used, live, o, Self);
    UnownedAt(d, live, x, o, Self);
    forall s | ValidSlot(s) ensures At(d[x := c], o, s) == At(d, o, s) {
      UpdateFrame(d, live, x, c, o);
      AtFrame(d, d[x := c], o, s);
    }
    forall pos | 0 <= pos < MAX_BYTES ensures ByteAt(d[x := c], o, pos) == ByteAt(d, o, pos) {
      var y := At(d, o, Data(pos / SECTOR_SIZE));
      if y != 0 { UnownedAt(d, live, x, o, Data(pos / SECTOR_SIZE)); }
    }
  }
}
