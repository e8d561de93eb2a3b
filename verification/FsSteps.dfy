/**
 The steps of an inode operation that grows a file: one block linked at a time,
 with the inode held in memory.  `d[ino := node]` is the disk as the operation
 sees it; every step keeps the ownership invariant on it and changes no file.
 */
module FsSteps {
  import opened FsBytes
  import opened FsTree
  import opened Options

  /** Bytes 56.. of the inode: everything but the block pointers. */
  ghost predicate SameTail(n: Sector, n': Sector)
  {
    forall b :: 56 <= b < SECTOR_SIZE ==> n'[b] == n[b]
  }

  lemma SetPointerTail(n: Sector, i: nat, w: nat)
    requires i <= W_DOUBLY && w < U32
    ensures SameTail(n, SetWord(n, i, w))
  {}

  lemma SameTailLength(n: Sector, n': Sector)
    requires SameTail(n, n')
    ensures Word(n', W_LENGTH) == Word(n, W_LENGTH) && n'[DIR_BYTE] == n[DIR_BYTE]
  {}

  /** Every slot of ino but t holds the same sector. */
  ghost predicate SlotsExcept(d: Disk, d': Disk, ino: nat, t: Slot)
  {
    forall s :: ValidSlot(s) && s != t ==> At(d', ino, s) == At(d, ino, s)
  }

  ghost predicate SameBlocks(d: Disk, d': Disk, ino: nat)
  {
    forall k :: 0 <= k < BLOCK_CNT ==> At(d', ino, Data(k)) == At(d, ino, Data(k))
  }

  ghost predicate SameBlocksBut(d: Disk, d': Disk, ino: nat, idx: nat)
  {
    forall k :: 0 <= k < BLOCK_CNT && k != idx ==> At(d', ino, Data(k)) == At(d, ino, Data(k))
  }

  /** d' is d with more blocks linked into ino: no file reads differently. */
  ghost predicate Grown(d: Disk, d': Disk, live: set<nat>, ino: nat)
  {
    && |d'| == |d| && ino < |d|
    && (forall o :: o in live && o != ino ==> SameFile(d, d', o))
    && (forall pos :: 0 <= pos < MAX_BYTES ==> ByteAt(d', ino, pos) == ByteAt(d, ino, pos))
    && (forall s :: Owned(d, ino, s) ==> Owned(d', ino, s) && At(d', ino, s) == At(d, ino, s))
    && SameTail(d[ino], d'[ino])
  }

  lemma GrownTrans(d: Disk, d': Disk, d'': Disk, live: set<nat>, ino: nat)
    requires Grown(d, d', live, ino) && Grown(d', d'', live, ino)
    ensures Grown(d, d'', live, ino)
  {
    hide Owned, At, ByteAt;
    forall o | o in live && o != ino ensures SameFile(d, d'', o) { SameFileTrans(d, d', d'', o); }
  }

  lemma LinkGrows(d: Disk, used: seq<bool>, live: set<nat>, ino: nat, t: Slot, v: nat)
    requires Linkable(d, used, live, ino, t, v)
    ensures At(d, ino, Parent(t)) < |d| && Grown(d, Link(d, ino, t, v), live, ino)
  {
    UsedAt(d, used, live, ino, Parent(t));
    UsedAt(d, used, live, ino, Self);
    LinkTail(d, used, live, ino, t, v);
    var d' := Link(d, ino, t, v);
    hide Link, Unowned, AllUsed, OneOwner, SameTail;
    forall o | o in live && o != ino ensures SameFile(d, d', o) {
      LinkFrame(d, used, live, ino, t, v, o);
    }
    forall pos | 0 <= pos < MAX_BYTES ensures ByteAt(d', ino, pos) == ByteAt(d, ino, pos) {
      ByteLink(d, used, live, ino, t, v, ino, pos);
    }
    forall s | Owned(d, ino, s) ensures Owned(d', ino, s) && At(d', ino, s) == At(d, ino, s) {
      OwnedLink(d, used, live, ino, t, v, ino, s);
    }
  }

  lemma LinkTail(d: Disk, used: seq<bool>, live: set<nat>, ino: nat, t: Slot, v: nat)
    requires Linkable(d, used, live, ino, t, v)
    ensures At(d, ino, Parent(t)) < |d| && ino < |d| && SameTail(d[ino], Link(d, ino, t, v)[ino])
  {
    UsedAt(d, used, live, ino, Parent(t));
    UsedAt(d, used, live, ino, Self);
    UnownedAt(d, live, v, ino, Self);
    hide Unowned, AllUsed, OneOwner, ZeroSector;
    if Parent(t) == Self {
      SetPointerTail(d[ino], Index(t), v);
    } else {
      DifferentSlots(d, live, ino, Parent(t), ino, Self);
    }
  }

  /** A sector nobody owned and that was not the one linked is still unowned. */
  lemma LinkUnowned(d: Disk, used: seq<bool>, live: set<nat>, ino: nat, t: Slot, v: nat, w: nat)
    requires Linkable(d, used, live, ino, t, v) && Unowned(d, live, w) && w != v
    ensures At(d, ino, Parent(t)) < |d| && Unowned(Link(d, ino, t, v), live, w)
  {
    UsedAt(d, used, live, ino, Parent(t));
    var d' := Link(d, ino, t, v);
    hide Link, AllUsed, OneOwner;
    forall o, s | o in live && Owned(d', o, s) ensures At(d', o, s) != w {
      OwnedLink(d, used, live, ino, t, v, o, s);
    }
  }

  /** Marking more sectors used keeps the invariant. */
  lemma TreeMark(d: Disk, used: seq<bool>, used': seq<bool>, live: set<nat>)
    requires Tree(d, used, live) && |used'| == |used| && forall x :: 0 <= x < |used| && used[x] ==> used'[x]
    ensures Tree(d, used', live)
  {
    hide OneOwner;
    forall o, s | o in live && Owned(d, o, s) ensures InUse(used', At(d, o, s)) {
      UsedAt(d, used, live, o, s);
    }
  }

  // ---- block lookup --------------------------------------------------------------

  /** get_block_sector_disk: node is the inode held in memory. */
  function GetBlockSector(d: Disk, node: Sector, idx: nat): Option<nat>
    requires idx < BLOCK_CNT
  {
    if idx < DIRECT_CNT then
      NonZero(Word(node, idx))
    else if idx < INDIRECT_END then
      NonZero(Deref(d, Indirect, Word(node, W_INDIRECT), idx - DIRECT_CNT))
    else
      var rel := idx - INDIRECT_END;
      var inner := Deref(d, Doubly, Word(node, W_DOUBLY), rel / PTRS_PER_BLOCK);
      NonZero(Deref(d, Inner(rel / PTRS_PER_BLOCK), inner, rel % PTRS_PER_BLOCK))
  }

  function NonZero(x: nat): Option<nat> { if x == 0 then None else Some(x) }

  /** A lookup through the inode in memory finds the slot of the tree. */
  lemma LookupIsAt(d: Disk, used: seq<bool>, live: set<nat>, ino: nat, node: Sector, idx: nat)
    requires ino < |d| && ino in live && Tree(d[ino := node], used, live) && idx < BLOCK_CNT
    ensures GetBlockSector(d, node, idx) == NonZero(At(d[ino := node], ino, Data(idx)))
  {
    var v := d[ino := node];
    hide OneOwner, AllUsed, Word;
    if idx >= DIRECT_CNT {
      var par := Parent(Data(idx));
      if par.Inner? {
        if At(v, ino, Doubly) != 0 { DifferentSlots(v, live, ino, Doubly, ino, Self); }
      }
      if At(v, ino, par) != 0 { DifferentSlots(v, live, ino, par, ino, Self); }
    }
  }

  // ---- linking a block through the inode in memory -----------------------------------

  /** Linking v into slot t on the disk an operation sees, where the inode is in memory. */
  lemma LinkInNode(d: Disk, ino: nat, node: Sector, t: Slot, v: nat)
    requires ino < |d| <= U32 && v < |d| && v != ino && ValidSlot(t) && t != Self && Parent(t) == Self
    ensures Link(d[ino := node], ino, t, v) == d[v := ZeroSector()][ino := SetWord(node, Index(t), v)]
  {}

  lemma LinkInSector(d: Disk, ino: nat, node: Sector, t: Slot, p: nat, v: nat)
    requires ino < |d| <= U32 && v < |d| && v != ino && ValidSlot(t) && t != Self && p < |d| && p != ino && p != v
    requires At(d[ino := node], ino, Parent(t)) == p
    ensures Link(d[ino := node], ino, t, v) == d[p := SetWord(d[p], Index(t), v)][v := ZeroSector()][ino := node]
  {
    hide At, SetWord, ZeroSector;
  }

  /** The invariant of an operation that holds the inode of ino in memory. */
  ghost predicate Seen(d: Disk, used: seq<bool>, live: set<nat>, ino: nat, node: Sector)
  {
    ino in live && ino < |d| && Tree(d[ino := node], used, live)
  }

  lemma SeenFresh(d: Disk, used: seq<bool>, live: set<nat>, ino: nat, node: Sector, v: nat)
    requires Seen(d, used, live, ino, node) && 2 <= v < |d| && !used[v]
    ensures Unowned(d[ino := node], live, v) && v != ino && Seen(d, used[v := true], live, ino, node)
  {
    FreeIsUnowned(d[ino := node], used, live, v);
    UnownedAt(d[ino := node], live, v, ino, Self);
    TreeMark(d[ino := node], used, used[v := true], live);
  }

  lemma LinkableSeen(d: Disk, used: seq<bool>, live: set<nat>, ino: nat, node: Sector, t: Slot, v: nat)
    requires Seen(d, used, live, ino, node) && 2 <= v < |d| && Unowned(d[ino := node], live, v)
    requires ValidSlot(t) && t != Self && At(d[ino := node], ino, t) == 0 && Owned(d[ino := node], ino, Parent(t))
    ensures Linkable(d[ino := node], used, live, ino, t, v)
    ensures InUse(used, At(d[ino := node], ino, Parent(t))) && At(d[ino := node], ino, Parent(t)) != v
    ensures Parent(t) != Self ==> At(d[ino := node], ino, Parent(t)) != ino
  {
    var e := d[ino := node];
    UsedAt(e, used, live, ino, Parent(t));
    UnownedAt(e, live, v, ino, Parent(t));
    if Parent(t) != Self { DifferentSlots(e, live, ino, Parent(t), ino, Self); }
  }

  /** Everything a caller needs to know about one link. */
  lemma LinkSeen(d: Disk, used: seq<bool>, live: set<nat>, ino: nat, node: Sector, t: Slot, v: nat, e': Disk)
    requires Seen(d, used, live, ino, node) && Linkable(d[ino := node], used, live, ino, t, v)
    requires InUse(used, v) && At(d[ino := node], ino, Parent(t)) < |d| && e' == Link(d[ino := node], ino, t, v)
    ensures Tree(e', used, live) && Grown(d[ino := node], e', live, ino)
    ensures At(e', ino, t) == v
    ensures SlotsExcept(d[ino := node], e', ino, t)
    ensures forall w :: w != v && Unowned(d[ino := node], live, w) ==> Unowned(e', live, w)
  {
    var e := d[ino := node];
    assert used[v := true] == used;
    TreeLink(e, used, live, ino, t, v);
    LinkGrows(e, used, live, ino, t, v);
    hide Link, Linkable, Unowned, Grown, Tree;
    forall s | ValidSlot(s) ensures At(e', ino, s) == if s == t then v else At(e, ino, s) {
      LinkedSlot(e, used, live, ino, t, v, s);
    }
    forall w | w != v && Unowned(e, live, w) ensures Unowned(e', live, w) {
      LinkUnowned(e, used, live, ino, t, v, w);
    }
  }

  lemma LinkedSlot(e: Disk, used: seq<bool>, live: set<nat>, ino: nat, t: Slot, v: nat, s: Slot)
    requires Linkable(e, used, live, ino, t, v) && ValidSlot(s)
    ensures At(e, ino, Parent(t)) < |e|
    ensures At(Link(e, ino, t, v), ino, s) == if s == t then v else At(e, ino, s)
  {
    AtLink(e, used, live, ino, t, v, ino, s);
  }

  /** An operation's view after some of its steps: more blocks linked, more sectors used,
      every file reading as before, and the inode sector on disk untouched. */
  ghost predicate Stepped(d: Disk, u: seq<bool>, n: Sector, d': Disk, u': seq<bool>, n': Sector, live: set<nat>,
                          ino: nat)
  {
    && Seen(d, u, live, ino, n) && Seen(d', u', live, ino, n')
    && Grown(d[ino := n], d'[ino := n'], live, ino)
    && d'[ino] == d[ino]
    && |u'| == |u| && (forall x :: 0 <= x < |u| && u[x] ==> u'[x])
  }

  lemma SteppedTrans(d: Disk, u: seq<bool>, n: Sector, d1: Disk, u1: seq<bool>, n1: Sector,
                     d2: Disk, u2: seq<bool>, n2: Sector, live: set<nat>, ino: nat)
    requires Stepped(d, u, n, d1, u1, n1, live, ino) && Stepped(d1, u1, n1, d2, u2, n2, live, ino)
    ensures Stepped(d, u, n, d2, u2, n2, live, ino)
  {
    GrownTrans(d[ino := n], d1[ino := n1], d2[ino := n2], live, ino);
    hide Seen, Grown;
  }

  lemma SteppedSelf(d: Disk, u: seq<bool>, n: Sector, u': seq<bool>, live: set<nat>, ino: nat)
    requires Seen(d, u, live, ino, n) && |u'| == |u| && forall x :: 0 <= x < |u| && u[x] ==> u'[x]
    ensures Stepped(d, u, n, d, u', n, live, ino)
  {
    TreeMark(d[ino := n], u, u', live);
    hide Tree;
    forall o | o in live && o != ino ensures SameFile(d[ino := n], d[ino := n], o) { SeenLive(d, u, live, ino, n, o); }
  }

  lemma SeenLive(d: Disk, u: seq<bool>, live: set<nat>, ino: nat, n: Sector, o: nat)
    requires Seen(d, u, live, ino, n) && o in live
    ensures o < |d|
  {
    UsedAt(d[ino := n], u, live, o, Self);
  }

  lemma SteppedSeen(d: Disk, u: seq<bool>, n: Sector, d': Disk, u': seq<bool>, n': Sector, live: set<nat>, ino: nat)
    requires Stepped(d, u, n, d', u', n', live, ino)
    ensures Seen(d', u', live, ino, n') && |d'| == |d| && ino < |d| && d'[ino] == d[ino]
  {}

  /** Where the code finds the pointer block of an indirect data block. */
  lemma PointerPlace(d: Disk, u: seq<bool>, live: set<nat>, ino: nat, node: Sector, idx: nat)
    requires Seen(d, u, live, ino, node) && idx < BLOCK_CNT && Owned(d[ino := node], ino, Parent(Data(idx)))
    ensures At(d[ino := node], ino, Parent(Data(idx))) < |d|
    ensures DIRECT_CNT <= idx < INDIRECT_END ==>
              At(d[ino := node], ino, Parent(Data(idx))) == Word(node, W_INDIRECT) != 0
    ensures INDIRECT_END <= idx ==> Word(node, W_DOUBLY) < |d|
    ensures INDIRECT_END <= idx ==>
              At(d[ino := node], ino, Parent(Data(idx))) ==
                  Word(d[Word(node, W_DOUBLY)], (idx - INDIRECT_END) / PTRS_PER_BLOCK) != 0
  {
    UsedAt(d[ino := node], u, live, ino, Parent(Data(idx)));
    if idx >= INDIRECT_END {
      ParentOwned(d[ino := node], ino, Parent(Data(idx)));
      OuterWord(d, u, live, ino, node, (idx - INDIRECT_END) / PTRS_PER_BLOCK);
    }
    hide OneOwner, AllUsed, Word;
  }

  lemma DirectLinked(d0: Disk, u: seq<bool>, n0: Sector, ino: nat, live: set<nat>, idx: nat, v: nat, n1: Sector)
    requires Seen(d0, u, live, ino, n0) && idx < DIRECT_CNT && At(d0[ino := n0], ino, Data(idx)) == 0
    requires 2 <= v < |d0| && InUse(u, v) && Unowned(d0[ino := n0], live, v) && n1 == SetWord(n0, idx, v)
    ensures v != ino && Stepped(d0, u, n0, d0[v := ZeroSector()], u, n1, live, ino)
    ensures At(d0[v := ZeroSector()][ino := n1], ino, Data(idx)) == v
    ensures SlotsExcept(d0[ino := n0], d0[v := ZeroSector()][ino := n1], ino, Data(idx))
  {
    LinkableSeen(d0, u, live, ino, n0, Data(idx), v);
    UnownedAt(d0[ino := n0], live, v, ino, Self);
    LinkInNode(d0, ino, n0, Data(idx), v);
    LinkedStep(d0, u, n0, ino, live, Data(idx), v, d0[v := ZeroSector()], n1, 0);
  }

  lemma OuterWord(d: Disk, u: seq<bool>, live: set<nat>, ino: nat, node: Sector, j: nat)
    requires Seen(d, u, live, ino, node) && j < PTRS_PER_BLOCK && At(d[ino := node], ino, Doubly) != 0
    ensures At(d[ino := node], ino, Doubly) == Word(node, W_DOUBLY) < |d| && Word(node, W_DOUBLY) != ino
    ensures At(d[ino := node], ino, Inner(j)) == Word(d[Word(node, W_DOUBLY)], j)
  {
    UsedAt(d[ino := node], u, live, ino, Doubly);
    DifferentSlots(d[ino := node], live, ino, Doubly, ino, Self);
    hide OneOwner, AllUsed, Word;
  }

  lemma InnerLinked(d0: Disk, u0: seq<bool>, node: Sector, ino: nat, live: set<nat>, j: nat, p: nat, v: nat,
                    d1: Disk, keep: nat)
    requires Seen(d0, u0, live, ino, node) && j < PTRS_PER_BLOCK && 2 <= v < |d0| && !u0[v] && p < |d0|
    requires At(d0[ino := node], ino, Inner(j)) == 0 && At(d0[ino := node], ino, Doubly) == p && p != 0
    requires d1 == d0[p := SetWord(d0[p], j, v)][v := ZeroSector()]
    requires InUse(u0, keep) && Unowned(d0[ino := node], live, keep)
    ensures Stepped(d0, u0, node, d1, u0[v := true], node, live, ino)
    ensures InUse(u0[v := true], keep) && Unowned(d1[ino := node], live, keep)
    ensures At(d1[ino := node], ino, Inner(j)) == v
    ensures SlotsExcept(d0[ino := node], d1[ino := node], ino, Inner(j))
  {
    var u := u0[v := true];
    SeenFresh(d0, u0, live, ino, node, v);
    SteppedSelf(d0, u0, node, u, live, ino);
    assert Parent(Inner(j)) == Doubly && Index(Inner(j)) == j;
    SectorLinked(d0, u, node, ino, live, Inner(j), p, v, d1, keep);
    SteppedTrans(d0, u0, node, d0, u, node, d1, u, node, live, ino);
    hide *;
  }

  /** One link as a step of an operation. */
  lemma LinkedStep(d0: Disk, u: seq<bool>, n0: Sector, ino: nat, live: set<nat>, t: Slot, v: nat, d1: Disk,
                   n1: Sector, keep: nat)
    requires Seen(d0, u, live, ino, n0) && Linkable(d0[ino := n0], u, live, ino, t, v) && InUse(u, v)
    requires At(d0[ino := n0], ino, Parent(t)) < |d0|
    requires |d1| == |d0| && d1[ino] == d0[ino] && d1[ino := n1] == Link(d0[ino := n0], ino, t, v)
    ensures Stepped(d0, u, n0, d1, u, n1, live, ino)
    ensures At(d1[ino := n1], ino, t) == v
    ensures SlotsExcept(d0[ino := n0], d1[ino := n1], ino, t)
    ensures keep != v && Unowned(d0[ino := n0], live, keep) ==> Unowned(d1[ino := n1], live, keep)
  {
    LinkSeen(d0, u, live, ino, n0, t, v, d1[ino := n1]);
    hide Unowned, Linkable, Link, At, Grown;
  }

  lemma NodeLinked(d0: Disk, u0: seq<bool>, n0: Sector, ino: nat, live: set<nat>, t: Slot, v: nat, d1: Disk,
                   n1: Sector, keep: nat)
    requires Seen(d0, u0, live, ino, n0) && ValidSlot(t) && t != Self && Parent(t) == Self
    requires At(d0[ino := n0], ino, t) == 0 && 2 <= v < |d0| && !u0[v]
    requires n1 == SetWord(n0, Index(t), v) && d1 == d0[v := ZeroSector()]
    requires InUse(u0, keep) && Unowned(d0[ino := n0], live, keep)
    ensures Stepped(d0, u0, n0, d1, u0[v := true], n1, live, ino)
    ensures InUse(u0[v := true], keep) && Unowned(d1[ino := n1], live, keep)
    ensures At(d1[ino := n1], ino, t) == v
    ensures SlotsExcept(d0[ino := n0], d1[ino := n1], ino, t)
  {
    var u := u0[v := true];
    SeenFresh(d0, u0, live, ino, n0, v);
    LinkableSeen(d0, u, live, ino, n0, t, v);
    LinkInNode(d0, ino, n0, t, v);
    SteppedSelf(d0, u0, n0, u, live, ino);
    LinkedStep(d0, u, n0, ino, live, t, v, d1, n1, keep);
    SteppedTrans(d0, u0, n0, d0, u, n0, d1, u, n1, live, ino);
    hide *;
  }

  lemma SectorLinked(d0: Disk, u: seq<bool>, node: Sector, ino: nat, live: set<nat>, t: Slot, p: nat, v: nat,
                     d1: Disk, keep: nat)
    requires Seen(d0, u, live, ino, node) && ValidSlot(t) && t != Self && Parent(t) != Self
    requires At(d0[ino := node], ino, t) == 0 && At(d0[ino := node], ino, Parent(t)) == p && p != 0
    requires 2 <= v < |d0| && InUse(u, v) && Unowned(d0[ino := node], live, v)
    requires p < |d0| && d1 == d0[p := SetWord(d0[p], Index(t), v)][v := ZeroSector()]
    ensures p != ino && p != v && v != ino
    ensures Stepped(d0, u, node, d1, u, node, live, ino)
    ensures At(d1[ino := node], ino, t) == v
    ensures SlotsExcept(d0[ino := node], d1[ino := node], ino, t)
    ensures keep != v && Unowned(d0[ino := node], live, keep) ==> Unowned(d1[ino := node], live, keep)
  {
    ParentValid(t);
    LinkableSeen(d0, u, live, ino, node, t, v);
    UnownedAt(d0[ino := node], live, v, ino, Self);
    LinkInSector(d0, ino, node, t, p, v);
    LinkedStep(d0, u, node, ino, live, t, v, d1, node, keep);
  }

  // ---- writing ---------------------------------------------------------------------

  /** The file after data has been written at off: zero-padded up to off, then overwritten. */
  function Written(c: seq<Byte>, off: nat, data: seq<Byte>): (r: seq<Byte>)
    ensures |r| == if |c| < off + |data| then off + |data| else |c|
    ensures forall i :: 0 <= i < |r| ==>
              r[i] == if off <= i < off + |data| then data[i - off] else if i < |c| then c[i] else 0
  {
    var n := if |c| < off + |data| then off + |data| else |c|;
    seq(n, i requires 0 <= i < n => if off <= i < off + |data| then data[i - off] else if i < |c| then c[i] else 0)
  }

  /** The bytes of ino on d are those on d0 except that data stands at off. */
  ghost predicate BytesWritten(d0: Disk, d: Disk, ino: nat, off: nat, data: seq<Byte>)
  {
    forall pos :: 0 <= pos < MAX_BYTES ==>
      ByteAt(d, ino, pos) == if off <= pos < off + |data| then data[pos - off] else ByteAt(d0, ino, pos)
  }

  /** A data block of ino on d was there on d0 or lies below end. */
  ghost predicate BlocksBelow(d0: Disk, d: Disk, ino: nat, end: nat)
  {
    forall k :: Owned(d, ino, Data(k)) ==> Owned(d0, ino, Data(k)) || SECTOR_SIZE * k < end
  }

  /** write_at after data has gone to off: d0 is the disk it began on, e the disk as it sees it now. */
  ghost predicate Writing(d0: Disk, e: Disk, live: set<nat>, ino: nat, off: nat, data: seq<Byte>)
  {
    && |e| == |d0| && ino < |d0| && SameTail(d0[ino], e[ino])
    && (forall o :: o in live && o != ino ==> SameFile(d0, e, o))
    && BytesWritten(d0, e, ino, off, data)
    && BlocksBelow(d0, e, ino, off + |data|)
  }

  lemma WritingStart(d: Disk, u: seq<bool>, live: set<nat>, ino: nat, off: nat)
    requires Tree(d, u, live) && ino in live
    ensures ino < |d| && d[ino := d[ino]] == d && Seen(d, u, live, ino, d[ino]) && Writing(d, d, live, ino, off, [])
  {
    UsedAt(d, u, live, ino, Self);
    hide Tree;
    forall o | o in live && o != ino ensures SameFile(d, d, o) { LiveInRange(d, u, live, o); }
  }

  lemma LiveInRange(d: Disk, u: seq<bool>, live: set<nat>, o: nat)
    requires Tree(d, u, live) && o in live
    ensures o < |d| && InUse(u, o)
  {
    UsedAt(d, u, live, o, Self);
  }

  /** Growing the file leaves what was written. */
  lemma WritingGrown(d0: Disk, e: Disk, e': Disk, live: set<nat>, ino: nat, off: nat, data: seq<Byte>)
    requires Writing(d0, e, live, ino, off, data) && Grown(e, e', live, ino)
    ensures |e'| == |d0| && SameTail(d0[ino], e'[ino]) && BytesWritten(d0, e', ino, off, data)
    ensures forall o :: o in live && o != ino ==> SameFile(d0, e', o)
  {
    hide ByteAt, Owned, At;
    forall o | o in live && o != ino ensures SameFile(d0, e', o) { SameFileTrans(d0, e, e', o); }
  }

  lemma BlocksBelowGrown(d0: Disk, e: Disk, e': Disk, ino: nat, end: nat, idx: nat)
    requires BlocksBelow(d0, e, ino, end) && SameBlocksBut(e, e', ino, idx) && SECTOR_SIZE * idx < end
    ensures BlocksBelow(d0, e', ino, end)
  {
    hide At;
  }

  /** Positions of block idx, by quotient and remainder. */
  lemma BlockPosition(pos: nat, idx: nat)
    ensures pos / SECTOR_SIZE == idx <==> SECTOR_SIZE * idx <= pos < SECTOR_SIZE * idx + SECTOR_SIZE
    ensures pos / SECTOR_SIZE == idx ==> pos % SECTOR_SIZE == pos - SECTOR_SIZE * idx
  {}

  lemma ChunkByte(e: Disk, u: seq<bool>, live: set<nat>, ino: nat, start: nat, chunk: seq<Byte>, pos: nat)
    requires Tree(e, u, live) && ino in live && pos < MAX_BYTES && Owned(e, ino, Data(start / SECTOR_SIZE))
    requires start % SECTOR_SIZE + |chunk| <= SECTOR_SIZE && At(e, ino, Data(start / SECTOR_SIZE)) < |e|
    ensures var x := At(e, ino, Data(start / SECTOR_SIZE));
            ByteAt(e[x := Splice(e[x], start % SECTOR_SIZE, chunk)], ino, pos) ==
            if start <= pos < start + |chunk| then chunk[pos - start] else ByteAt(e, ino, pos)
  {
    var idx := start / SECTOR_SIZE;
    var x := At(e, ino, Data(idx));
    var c: Sector := Splice(e[x], start % SECTOR_SIZE, chunk);
    ByteDataWrite(e, u, live, ino, idx, c, ino, pos);
    BlockPosition(pos, idx);
    BlockPosition(start, idx);
    hide At, Tree;
  }

  /** One chunk: its block is linked in e and chunk is copied into it. */
  lemma ChunkWritten(d0: Disk, e: Disk, u: seq<bool>, live: set<nat>, ino: nat, off: nat, data: seq<Byte>,
                     chunk: seq<Byte>)
    requires Tree(e, u, live) && ino in live && |e| == |d0| && BytesWritten(d0, e, ino, off, data)
    requires (off + |data|) / SECTOR_SIZE < BLOCK_CNT && Owned(e, ino, Data((off + |data|) / SECTOR_SIZE))
    requires At(e, ino, Data((off + |data|) / SECTOR_SIZE)) < |e|
    requires (off + |data|) % SECTOR_SIZE + |chunk| <= SECTOR_SIZE
    ensures var x := At(e, ino, Data((off + |data|) / SECTOR_SIZE));
            BytesWritten(d0, e[x := Splice(e[x], (off + |data|) % SECTOR_SIZE, chunk)], ino, off, data + chunk)
  {
    var start := off + |data|;
    var x := At(e, ino, Data(start / SECTOR_SIZE));
    var e' := e[x := Splice(e[x], start % SECTOR_SIZE, chunk)];
    forall pos | 0 <= pos < MAX_BYTES
      ensures ByteAt(e', ino, pos) ==
              if off <= pos < off + |data + chunk| then (data + chunk)[pos - off] else ByteAt(d0, ino, pos)
    {
      ChunkByte(e, u, live, ino, start, chunk, pos);
    }
  }

  /** One round of the write loop, on the disk as write_at sees it. */
  lemma WriteRound(d0: Disk, e: Disk, e1: Disk, u: seq<bool>, live: set<nat>, ino: nat, off: nat, data: seq<Byte>,
                   chunk: seq<Byte>)
    requires Writing(d0, e, live, ino, off, data) && Grown(e, e1, live, ino) && Tree(e1, u, live) && ino in live
    requires (off + |data|) / SECTOR_SIZE < BLOCK_CNT && SameBlocksBut(e, e1, ino, (off + |data|) / SECTOR_SIZE)
    requires Owned(e1, ino, Data((off + |data|) / SECTOR_SIZE))
    requires chunk != [] && (off + |data|) % SECTOR_SIZE + |chunk| <= SECTOR_SIZE
    ensures var x := At(e1, ino, Data((off + |data|) / SECTOR_SIZE));
            x < |e1| && x != ino &&
            var e2 := e1[x := Splice(e1[x], (off + |data|) % SECTOR_SIZE, chunk)];
            Tree(e2, u, live) && Writing(d0, e2, live, ino, off, data + chunk)
  {
    var idx := (off + |data|) / SECTOR_SIZE;
    var x := At(e1, ino, Data(idx));
    UsedAt(e1, u, live, ino, Data(idx));
    DifferentSlots(e1, live, ino, Data(idx), ino, Self);
    WritingGrown(d0, e, e1, live, ino, off, data);
    ChunkWritten(d0, e1, u, live, ino, off, data, chunk);
    var c: Sector := Splice(e1[x], (off + |data|) % SECTOR_SIZE, chunk);
    TreeDataWrite(e1, u, live, ino, idx, c);
    assert BlocksBelow(d0, e, ino, off + |data + chunk|);
    BlocksBelowGrown(d0, e, e1, ino, off + |data + chunk|, idx);
    BlocksBelowWrite(d0, e1, u, live, ino, off + |data + chunk|, idx, c);
    hide Tree, BytesWritten, BlocksBelow, At, Owned, SameBlocksBut, Grown;
    forall o | o in live && o != ino ensures SameFile(d0, e1[x := c], o) {
      DataWriteFrame(e1, u, live, ino, idx, c, o);
      SameFileTrans(d0, e1, e1[x := c], o);
    }
  }

  lemma BlocksBelowWrite(d0: Disk, e: Disk, u: seq<bool>, live: set<nat>, ino: nat, end: nat, idx: nat, c: Sector)
    requires Tree(e, u, live) && ino in live && Owned(e, ino, Data(idx)) && At(e, ino, Data(idx)) < |e| &&
             BlocksBelow(d0, e, ino, end)
    ensures BlocksBelow(d0, e[At(e, ino, Data(idx)) := c], ino, end)
  {
    forall k | Owned(e[At(e, ino, Data(idx)) := c], ino, Data(k)) ensures Owned(e, ino, Data(k)) {
      AtDataWrite(e, u, live, ino, idx, c, ino, Data(k));
    }
  }

  /** The inode that write_at stores at the end. */
  function WithLength(node: Sector, len: nat): Sector
    requires len < U32
  {
    SetWord(SetWord(node, W_LENGTH, len), W_WRITE_END, len)
  }

  lemma WithLengthFacts(node: Sector, len: nat)
    requires len < U32
    ensures SamePointers(node, WithLength(node, len)) && Word(WithLength(node, len), W_LENGTH) == len
    ensures WithLength(node, len)[DIR_BYTE] == node[DIR_BYTE]
  {
    var n1 := SetWord(node, W_LENGTH, len);
    WordOfSetWord(n1, W_WRITE_END, len, W_LENGTH);
    WordOfSetWord(node, W_LENGTH, len, W_LENGTH);
    SetWordBytes(n1, W_WRITE_END, len, DIR_BYTE);
    SetWordBytes(node, W_LENGTH, len, DIR_BYTE);
    hide Word, SetWord;
    forall i | 0 <= i <= W_DOUBLY ensures Word(WithLength(node, len), i) == Word(node, i) {
      WordOfSetWord(n1, W_WRITE_END, len, i);
      WordOfSetWord(node, W_LENGTH, len, i);
    }
  }

  /** The end of write_at: the new inode goes to disk and the file is what was to be written. */
  lemma WriteDone(d0: Disk, e: Disk, u: seq<bool>, live: set<nat>, ino: nat, off: nat, data: seq<Byte>, n: Sector)
    requires Tree(e, u, live) && ino in live && Writing(d0, e, live, ino, off, data) && off + |data| <= MAX_BYTES
    requires Fits(d0, ino, Len(d0, ino))
    requires n == if off + |data| > Len(d0, ino) then WithLength(e[ino], off + |data|) else e[ino]
    ensures Tree(e[ino := n], u, live)
    ensures forall o :: o in live && o != ino ==> SameFile(d0, e[ino := n], o)
    ensures Fits(e[ino := n], ino, Len(e[ino := n], ino)) && IsDir(e[ino := n], ino) == IsDir(d0, ino)
    ensures Contents(e[ino := n], ino) == Written(Contents(d0, ino), off, data)
  {
    var d1 := e[ino := n];
    SameTailLength(d0[ino], e[ino]);
    if off + |data| > Len(d0, ino) { WithLengthFacts(e[ino], off + |data|); }
    assert SamePointers(e[ino], n);
    var len := if off + |data| > Len(d0, ino) then off + |data| else Len(d0, ino);
    assert Len(d1, ino) == len;
    InodeWrite(e, u, live, ino, n);
    hide SamePointers, Word, WithLength, SameTail, Tree, At;
    forall o | o in live && o != ino ensures SameFile(d0, d1, o) { SameFileTrans(d0, e, d1, o); }
    WrittenFits(d0, e, d1, ino, off, data, len);
  }

  lemma WrittenFits(d0: Disk, e: Disk, d1: Disk, ino: nat, off: nat, data: seq<Byte>, len: nat)
    requires ino < |d0| && |d1| == |d0| && Fits(d0, ino, Len(d0, ino)) && off + |data| <= MAX_BYTES
    requires BytesWritten(d0, e, ino, off, data) && BlocksBelow(d0, e, ino, off + |data|)
    requires len == (if off + |data| > Len(d0, ino) then off + |data| else Len(d0, ino)) && Len(d1, ino) == len
    requires forall s :: ValidSlot(s) ==> At(d1, ino, s) == At(e, ino, s)
    requires forall pos :: 0 <= pos < MAX_BYTES ==> ByteAt(d1, ino, pos) == ByteAt(e, ino, pos)
    ensures Fits(d1, ino, len) && Contents(d1, ino) == Written(Contents(d0, ino), off, data)
  {
    hide ByteAt, At;
    forall k | Owned(d1, ino, Data(k)) ensures SECTOR_SIZE * k < len {
      assert Owned(e, ino, Data(k));
    }
  }

  /** Every live inode describes a file: its length covers its blocks and its bytes. */
  ghost predicate FilesOk(d: Disk, live: set<nat>)
  {
    forall o :: o in live ==> o < |d| && Fits(d, o, Len(d, o))
  }

  lemma FilesOkAfter(d: Disk, d': Disk, live: set<nat>, ino: nat)
    requires FilesOk(d, live) && ino in live && ino < |d'|
    requires forall o :: o in live && o != ino ==> SameFile(d, d', o)
    requires Fits(d', ino, Len(d', ino))
    ensures FilesOk(d', live)
  {
    hide Fits, Len;
    forall o | o in live && o != ino ensures o < |d'| && Fits(d', o, Len(d', o)) {
      SameFileContents(d, d', o);
    }
  }

  // ---- creating ----------------------------------------------------------------------

  /** A fresh on-disk inode. */
  function FreshInode(len: nat, isDir: bool): Sector
    requires len < U32
  {
    SetWord(SetWord(SetWord(ZeroSector(), W_LENGTH, len), W_WRITE_END, len), W_MAGIC, INODE_MAGIC)
      [DIR_BYTE := if isDir then 1 else 0]
  }

  lemma FreshInodeFacts(len: nat, isDir: bool)
    requires len < U32
    ensures NoPointers(FreshInode(len, isDir)) && Word(FreshInode(len, isDir), W_LENGTH) == len
    ensures (FreshInode(len, isDir)[DIR_BYTE] != 0) == isDir
  {
    var n1 := SetWord(ZeroSector(), W_LENGTH, len);
    var n2 := SetWord(n1, W_WRITE_END, len);
    var n3 := SetWord(n2, W_MAGIC, INODE_MAGIC);
    var n := FreshInode(len, isDir);
    forall i | 0 <= i <= W_LENGTH ensures Word(n, i) == if i == W_LENGTH then len else 0 {
      assert Word(n, i) == Word(n3, i);
      WordOfSetWord(n2, W_MAGIC, INODE_MAGIC, i);
      WordOfSetWord(n1, W_WRITE_END, len, i);
      WordOfSetWord(ZeroSector(), W_LENGTH, len, i);
      WordOfZero(i);
    }
  }

  ghost predicate AllZero(d: Disk, ino: nat) { forall pos :: 0 <= pos < MAX_BYTES ==> ByteAt(d, ino, pos) == 0 }

  ghost predicate NoBlocks(d: Disk, ino: nat) { forall k :: !Owned(d, ino, Data(k)) }

  /** A new inode without blocks joins the live ones. */
  lemma NewInodeTree(d: Disk, u: seq<bool>, live: set<nat>, ino: nat, n: Sector)
    requires Tree(d, u, live) && InUse(u, ino) && Unowned(d, live, ino) && ino !in live && NoPointers(n)
    ensures ino < |d| && Tree(d[ino := n], u, live + {ino})
    ensures forall o :: o in live ==> SameFile(d, d[ino := n], o)
    ensures AllZero(d[ino := n], ino)
    ensures NoBlocks(d[ino := n], ino)
  {
    var d' := d[ino := n];
    TreeNew(d, u, live, ino, n);
    hide NoPointers;
    forall s | Owned(d', ino, s) ensures s == Self { AtReset(d, ino, n, s); }
    NewOwner(d, d', u, live, ino);
    forall pos | 0 <= pos < MAX_BYTES ensures ByteAt(d', ino, pos) == 0 {
      AtReset(d, ino, n, Data(pos / SECTOR_SIZE));
    }
  }

  lemma NewOwner(d: Disk, d': Disk, u: seq<bool>, live: set<nat>, ino: nat)
    requires Tree(d, u, live) && InUse(u, ino) && Unowned(d, live, ino) && ino !in live && |d'| == |d|
    requires forall o :: o in live ==> SameFile(d, d', o)
    requires forall s :: Owned(d', ino, s) ==> s == Self
    ensures Tree(d', u, live + {ino})
  {
    forall o, s | o in live && Owned(d', o, s) ensures Owned(d, o, s) && At(d', o, s) == At(d, o, s) {
      assert SameFile(d, d', o);
    }
    hide SameFile;
    assert AllUsed(d', u, live + {ino});
  }

  /** Zeroing and marking a sector that stays unowned is a step that changes nothing. */
  lemma LeakedStep(d: Disk, u: seq<bool>, live: set<nat>, ino: nat, node: Sector, v: nat)
    requires Seen(d, u, live, ino, node) && 2 <= v < |d| && !u[v]
    ensures v != ino && Stepped(d, u, node, d[v := ZeroSector()], u[v := true], node, live, ino)
    ensures SameBlocks(d[ino := node], d[v := ZeroSector()][ino := node], ino)
  {
    var e := d[ino := node];
    SeenFresh(d, u, live, ino, node, v);
    var e' := d[v := ZeroSector()][ino := node];
    assert e' == e[v := ZeroSector()];
    hide Seen, ZeroSector;
    assert Tree(e, u[v := true], live);
    LeakedFrame(e, e', u[v := true], live, v, ino);
  }

  lemma LeakedFrame(e: Disk, e': Disk, u: seq<bool>, live: set<nat>, v: nat, ino: nat)
    requires Tree(e, u, live) && v < |e| && Unowned(e, live, v) && ino in live && ino < |e| && v != ino &&
             e' == e[v := ZeroSector()]
    ensures Tree(e', u, live) && Grown(e, e', live, ino) && SameBlocks(e, e', ino)
  {
    forall o | o in live ensures SameFile(e, e', o) { UnownedWrite(e, u, live, v, ZeroSector(), o); }
    hide Unowned, ZeroSector;
    TreeSameSlots(e, e', u, live);
    assert SameFile(e, e', ino);
  }

  /** Giving the new inode up again: the old files are as they were. */
  lemma Abandon(d0: Disk, d: Disk, u: seq<bool>, live: set<nat>, ino: nat, node0: Sector, node: Sector)
    requires ino !in live && |d| == |d0| && ino < |d| && d[ino] == d0[ino]
    requires forall o :: o in live ==> SameFile(d0, d0[ino := node0], o)
    requires Tree(d[ino := node], u, live + {ino}) && Grown(d0[ino := node0], d[ino := node], live + {ino}, ino)
    ensures Tree(d, u, live) && forall o :: o in live ==> SameFile(d0, d, o)
  {
    var e := d[ino := node];
    assert d == e[ino := d[ino]];
    forall o | o in live ensures SameFile(d0, d, o) {
      OtherFile(e, u, live + {ino}, ino, d[ino], o);
      SameFileTrans(d0, d0[ino := node0], e, o);
      SameFileTrans(d0, e, d, o);
    }
    TreeSubset(e, u, live + {ino}, live);
    hide Grown;
    forall o, s | o in live && ValidSlot(s) ensures At(d, o, s) == At(e, o, s) {
      AtOther(e, u, live + {ino}, ino, d[ino], o, s);
    }
    TreeSameSlots(e, d, u, live);
  }

  lemma TreeSubset(d: Disk, u: seq<bool>, live: set<nat>, live': set<nat>)
    requires Tree(d, u, live) && live' <= live
    ensures Tree(d, u, live')
  {
    OneOwnerSubset(d, live, live');
    hide OneOwner;
  }

  // ---- freeing -----------------------------------------------------------------------

  function BytesToSectors(bytes: int): nat { if bytes <= 0 then 0 else (bytes + 511) / 512 }

  /** With the inode read from disk a lookup is the slot. */
  lemma LookupSelf(d: Disk, ino: nat, idx: nat)
    requires ino < |d| && idx < BLOCK_CNT
    ensures GetBlockSector(d, d[ino], idx) == NonZero(At(d, ino, Data(idx)))
  {
    hide Word;
    if idx >= INDIRECT_END {
      LookupDoubly(d, ino, idx);
    } else {
      AtUnfold(d, ino, Data(idx));
      assert At(d, ino, Indirect) == Word(d[ino], W_INDIRECT);
    }
  }

  lemma LookupDoubly(d: Disk, ino: nat, idx: nat)
    requires ino < |d| && INDIRECT_END <= idx < BLOCK_CNT
    ensures GetBlockSector(d, d[ino], idx) == NonZero(At(d, ino, Data(idx)))
  {
    hide Word, Deref, At;
    var j, i := (idx - INDIRECT_END) / PTRS_PER_BLOCK, (idx - INDIRECT_END) % PTRS_PER_BLOCK;
    assert Parent(Data(idx)) == Inner(j) && Index(Data(idx)) == i;
    InnerLookup(d, ino, j);
    AtUnfold(d, ino, Data(idx));
  }

  lemma AtUnfold(d: Disk, ino: nat, s: Slot)
    requires ValidSlot(s) && s != Self
    ensures At(d, ino, s) == Deref(d, Parent(s), At(d, ino, Parent(s)), Index(s))
  {
    hide Deref, Parent, Index;
  }

  lemma InnerLookup(d: Disk, ino: nat, j: nat)
    requires ino < |d| && j < PTRS_PER_BLOCK
    ensures At(d, ino, Inner(j)) == Deref(d, Doubly, Word(d[ino], W_DOUBLY), j)
  {
    hide Word;
  }

  /** Sectors freed so far: only ones the inode holds, and already those of the slots done. */
  ghost predicate Freeing(d: Disk, ino: nat, u0: seq<bool>, u: seq<bool>, freed: set<nat>)
  {
    && |u| == |u0|
    && (forall x :: 0 <= x < |u0| ==> (u[x] <==> u0[x] && x !in freed))
    && (forall x :: x in freed ==> Holds(d, ino, x))
  }

  lemma FreeingOne(d: Disk, ino: nat, u0: seq<bool>, u: seq<bool>, freed: set<nat>, s: Slot)
    requires Freeing(d, ino, u0, u, freed) && s != Self && Owned(d, ino, s) && At(d, ino, s) < |u|
    ensures Freeing(d, ino, u0, u[At(d, ino, s) := false], freed + {At(d, ino, s)})
  {
    assert Holds(d, ino, At(d, ino, s));
    hide At, Owned, Holds;
  }

  lemma FreeingDone(d: Disk, ino: nat, u0: seq<bool>, u: seq<bool>, freed: set<nat>)
    requires Freeing(d, ino, u0, u, freed)
    requires forall s :: s != Self && Owned(d, ino, s) ==> At(d, ino, s) in freed
    ensures Freed(d, u0, ino, false, u)
  {
    hide At;
    forall x | 0 <= x < |u0| ensures u[x] <==> u0[x] && !Holds(d, ino, x) {
      if Holds(d, ino, x) {
        var s :| s != Self && Owned(d, ino, s) && At(d, ino, s) == x;
      }
    }
  }

  /** Sectors of all slots lie on the disk. */
  ghost predicate InRange(d: Disk, ino: nat)
  {
    ino < |d| && forall s :: Owned(d, ino, s) ==> At(d, ino, s) < |d|
  }

  lemma TreeInRange(d: Disk, u: seq<bool>, live: set<nat>, ino: nat)
    requires Tree(d, u, live) && ino in live
    ensures InRange(d, ino)
  {
    UsedAt(d, u, live, ino, Self);
    forall s | Owned(d, ino, s) ensures At(d, ino, s) < |d| { UsedAt(d, u, live, ino, s); }
  }
}
