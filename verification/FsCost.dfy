/**
 What a block of a file costs: the sectors missing on the way to it, against the sectors
 that are free.  A write goes through exactly when it can be paid for.
 */
module FsCost {
  import opened FsBytes
  import opened FsTree
  import opened FsFreeMap
  import opened FsSteps

  // ---- what a block costs -----------------------------------------------------------

  /** The pointer blocks on the way to data block k. */
  function Tables(k: nat): set<Slot>
  {
    if k < DIRECT_CNT then {} else if k < INDIRECT_END then {Indirect}
    else {Doubly, Inner((k - INDIRECT_END) / PTRS_PER_BLOCK)}
  }

  /** Data block k and the pointer blocks on the way to it. */
  function Path(k: nat): set<Slot> { {Data(k)} + Tables(k) }

  /** The paths of data blocks lo to hi - 1. */
  function Paths(lo: nat, hi: nat): set<Slot>
    decreases hi - lo
  {
    if lo >= hi then {} else Path(lo) + Paths(lo + 1, hi)
  }

  /** Those of the slots that the inode has no sector for. */
  ghost function Missing(d: Disk, ino: nat, ss: set<Slot>): set<Slot>
  {
    set s | s in ss && ValidSlot(s) && At(d, ino, s) == 0
  }

  /** need sectors were taken; or they were more than there are, and all that there are were taken. */
  ghost predicate Spent(u: seq<bool>, u': seq<bool>, need: nat, ok: bool)
  {
    if ok then FreeCount(u') + need == FreeCount(u) else FreeCount(u) < need && NoneFree(u')
  }

  ghost function Need(d: Disk, ino: nat, ss: set<Slot>): nat { |Missing(d, ino, ss)| }

  lemma NeedOne(d: Disk, ino: nat, t: Slot)
    requires ValidSlot(t)
    ensures Need(d, ino, {t}) == if At(d, ino, t) == 0 then 1 else 0
  {
    hide At;
    assert Missing(d, ino, {t}) == if At(d, ino, t) == 0 then {t} else {};
  }

  lemma NeedTwo(d: Disk, ino: nat, ss: set<Slot>, tt: set<Slot>)
    requires ss !! tt
    ensures Need(d, ino, ss + tt) == Need(d, ino, ss) + Need(d, ino, tt)
  {
    hide At;
    assert Missing(d, ino, ss + tt) == Missing(d, ino, ss) + Missing(d, ino, tt);
  }

  /** Every slot outside ss holds the same sector. */
  ghost predicate SameOutside(d: Disk, d': Disk, ino: nat, ss: set<Slot>)
  {
    forall s :: ValidSlot(s) && s !in ss ==> At(d', ino, s) == At(d, ino, s)
  }

  ghost predicate AllThere(d: Disk, ino: nat, ss: set<Slot>)
  {
    forall s :: s in ss && ValidSlot(s) ==> At(d, ino, s) != 0
  }

  lemma NeedSame(d: Disk, d': Disk, ino: nat, ss: set<Slot>, tt: set<Slot>)
    requires SameOutside(d, d', ino, ss) && ss !! tt
    ensures Need(d', ino, tt) == Need(d, ino, tt)
  {
    hide At;
    assert Missing(d', ino, tt) == Missing(d, ino, tt);
  }

  /** Once the path of block lo is there, the blocks after it need that much less. */
  lemma NeedAfter(d: Disk, d': Disk, ino: nat, lo: nat, hi: nat)
    requires lo < hi && SameOutside(d, d', ino, Path(lo)) && AllThere(d', ino, Path(lo))
    ensures Need(d', ino, Paths(lo + 1, hi)) + Need(d, ino, Path(lo)) == Need(d, ino, Paths(lo, hi))
  {
    hide At, Path;
    var all, one := Missing(d, ino, Paths(lo, hi)), Missing(d, ino, Path(lo));
    assert Missing(d', ino, Paths(lo + 1, hi)) == all - one;
    assert one <= all;
  }

  lemma NeedSubset(d: Disk, ino: nat, lo: nat, hi: nat)
    requires lo < hi
    ensures Need(d, ino, Path(lo)) <= Need(d, ino, Paths(lo, hi))
  {
    hide At, Path;
    var all, one := Missing(d, ino, Paths(lo, hi)), Missing(d, ino, Path(lo));
    assert one <= all && all == one + (all - one);
  }

  /** A pointer block made sure of: t is there and has been paid for, or nothing is left to pay with;
      the sector `keep` is still reserved. */
  ghost predicate Ensured(d: Disk, u: seq<bool>, n: Sector, d': Disk, u': seq<bool>, n': Sector, live: set<nat>,
                          ino: nat,
                          ss: set<Slot>, keep: nat, ok: bool)
  {
    && Stepped(d, u, n, d', u', n', live, ino)
    && InUse(u', keep) && Unowned(d'[ino := n'], live, keep)
    && SameOutside(d[ino := n], d'[ino := n'], ino, ss)
    && (ok ==> AllThere(d'[ino := n'], ino, ss))
    && Spent(u, u', Need(d[ino := n], ino, ss), ok)
  }

  lemma EnsuredNone(d: Disk, u: seq<bool>, n: Sector, live: set<nat>, ino: nat, keep: nat)
    requires Seen(d, u, live, ino, n) && InUse(u, keep) && Unowned(d[ino := n], live, keep)
    ensures Ensured(d, u, n, d, u, n, live, ino, {}, keep, true)
  {
    SteppedSelf(d, u, n, u, live, ino);
    hide Stepped, At, Unowned;
    assert Missing(d[ino := n], ino, {}) == {};
  }

  /** The slot was there already. */
  lemma EnsuredThere(d: Disk, u: seq<bool>, n: Sector, live: set<nat>, ino: nat, t: Slot, keep: nat)
    requires Seen(d, u, live, ino, n) && InUse(u, keep) && Unowned(d[ino := n], live, keep) && ValidSlot(t) &&
             At(d[ino := n], ino, t) != 0
    ensures Ensured(d, u, n, d, u, n, live, ino, {t}, keep, true)
  {
    SteppedSelf(d, u, n, u, live, ino);
    hide Stepped, At, Unowned;
    NeedOne(d[ino := n], ino, t);
  }

  /** No sector is left for it. */
  lemma EnsuredFull(d: Disk, u: seq<bool>, n: Sector, live: set<nat>, ino: nat, t: Slot, keep: nat)
    requires Seen(d, u, live, ino, n) && InUse(u, keep) && Unowned(d[ino := n], live, keep) && ValidSlot(t) &&
             At(d[ino := n], ino, t) == 0
    requires NoneFree(u)
    ensures Ensured(d, u, n, d, u, n, live, ino, {t}, keep, false)
  {
    SteppedSelf(d, u, n, u, live, ino);
    hide Stepped, At, Unowned, FreeCount;
    NeedOne(d[ino := n], ino, t);
    FreeCountZero(u);
  }

  lemma EnsuredLinked(d: Disk, u: seq<bool>, n: Sector, d': Disk, n': Sector, live: set<nat>, ino: nat, t: Slot,
                      v: nat, keep: nat)
    requires ino < |d| == |d'| && 2 <= v < |u| && !u[v] && ValidSlot(t) && At(d[ino := n], ino, t) == 0
    requires Stepped(d, u, n, d', u[v := true], n', live, ino)
    requires InUse(u[v := true], keep) && Unowned(d'[ino := n'], live, keep)
    requires At(d'[ino := n'], ino, t) == v && SlotsExcept(d[ino := n], d'[ino := n'], ino, t)
    ensures Ensured(d, u, n, d', u[v := true], n', live, ino, {t}, keep, true)
  {
    hide Stepped, At, Unowned, FreeCount;
    NeedOne(d[ino := n], ino, t);
    FreeCountLess(u, v);
  }

  /** Two pointer blocks, one after the other. */
  lemma EnsuredBoth(d: Disk, u: seq<bool>, n: Sector, d1: Disk, u1: seq<bool>, n1: Sector, d2: Disk, u2: seq<bool>,
                    n2: Sector,
                    live: set<nat>, ino: nat, s: Slot, t: Slot, keep: nat, ok: bool)
    requires s != t && Ensured(d, u, n, d1, u1, n1, live, ino, {s}, keep, true)
    requires Ensured(d1, u1, n1, d2, u2, n2, live, ino, {t}, keep, ok)
    ensures Ensured(d, u, n, d2, u2, n2, live, ino, {s, t}, keep, ok)
  {
    hide Stepped, At, Unowned, FreeCount, Need, NoneFree;
    SteppedTrans(d, u, n, d1, u1, n1, d2, u2, n2, live, ino);
    SteppedSeen(d, u, n, d1, u1, n1, live, ino);
    SteppedSeen(d1, u1, n1, d2, u2, n2, live, ino);
    var e, e1 := d[ino := n], d1[ino := n1];
    NeedTwo(e, ino, {s}, {t});
    assert {s} + {t} == {s, t};
    NeedSame(e, e1, ino, {s}, {t});
  }

  lemma EnsuredFailed(d: Disk, u: seq<bool>, n: Sector, d1: Disk, u1: seq<bool>, n1: Sector, live: set<nat>, ino: nat,
                      s: Slot, t: Slot, keep: nat)
    requires s != t && Ensured(d, u, n, d1, u1, n1, live, ino, {s}, keep, false)
    ensures Ensured(d, u, n, d1, u1, n1, live, ino, {s, t}, keep, false)
  {
    SteppedSeen(d, u, n, d1, u1, n1, live, ino);
    hide Stepped, At, Unowned, FreeCount, Need;
    NeedTwo(d[ino := n], ino, {s}, {t});
    assert {s} + {t} == {s, t};
  }

  /** allocate_block_for: block idx and its path are there and paid for, or some of the path is there
      and there was not enough to pay for all of it. */
  ghost predicate Allocated(d: Disk, u: seq<bool>, n: Sector, d': Disk, u': seq<bool>, n': Sector, live: set<nat>,
                            ino: nat,
                            idx: nat, ok: bool)
  {
    && Stepped(d, u, n, d', u', n', live, ino)
    && SameOutside(d[ino := n], d'[ino := n'], ino, if ok then Path(idx) else Tables(idx))
    && (ok ==> AllThere(d'[ino := n'], ino, Path(idx)))
    && Spent(u, u', Need(d[ino := n], ino, Path(idx)), ok)
  }

  lemma NeedPath(d: Disk, ino: nat, idx: nat)
    requires idx < BLOCK_CNT
    ensures Need(d, ino, Path(idx)) == (if At(d, ino, Data(idx)) == 0 then 1 else 0) + Need(d, ino, Tables(idx))
  {
    hide At;
    NeedOne(d, ino, Data(idx));
    NeedTwo(d, ino, {Data(idx)}, Tables(idx));
  }

  /** No sector even for the block itself. */
  lemma AllocatedNone(d: Disk, u: seq<bool>, n: Sector, live: set<nat>, ino: nat, idx: nat)
    requires Seen(d, u, live, ino, n) && idx < BLOCK_CNT && At(d[ino := n], ino, Data(idx)) == 0 && NoneFree(u)
    ensures Allocated(d, u, n, d, u, n, live, ino, idx, false)
  {
    SteppedSelf(d, u, n, u, live, ino);
    hide Stepped, At, FreeCount, Need;
    NeedPath(d[ino := n], ino, idx);
    FreeCountZero(u);
  }

  /** The block was there already. */
  lemma AllocatedAlready(d: Disk, u: seq<bool>, n: Sector, live: set<nat>, ino: nat, idx: nat)
    requires Seen(d, u, live, ino, n) && idx < BLOCK_CNT && At(d[ino := n], ino, Data(idx)) != 0
    ensures Allocated(d, u, n, d, u, n, live, ino, idx, true)
  {
    SteppedSelf(d, u, n, u, live, ino);
    var e := d[ino := n];
    ParentOwned(e, ino, Data(idx));
    if idx >= INDIRECT_END { ParentOwned(e, ino, Parent(Data(idx))); }
    hide Stepped, At, FreeCount;
    assert Missing(e, ino, Path(idx)) == {};
  }

  /** A block taken, and its tables made sure of in vain. */
  lemma AllocatedFailed(d: Disk, u: seq<bool>, n: Sector, v: nat, d2: Disk, u2: seq<bool>, n2: Sector,
                        live: set<nat>, ino: nat, idx: nat)
    requires Seen(d, u, live, ino, n) && idx < BLOCK_CNT && At(d[ino := n], ino, Data(idx)) == 0 && 2 <= v < |u| &&
             !u[v]
    requires Ensured(d, u[v := true], n, d2, u2, n2, live, ino, Tables(idx), v, false)
    ensures Allocated(d, u, n, d2, u2, n2, live, ino, idx, false)
  {
    SteppedSelf(d, u, n, u[v := true], live, ino);
    SteppedTrans(d, u, n, d, u[v := true], n, d2, u2, n2, live, ino);
    hide Stepped, At, FreeCount, Need, Unowned;
    NeedPath(d[ino := n], ino, idx);
    FreeCountLess(u, v);
  }

  /** A block taken, its tables made sure of, and the block linked. */
  lemma AllocatedLinked(d: Disk, u: seq<bool>, n: Sector, v: nat, d2: Disk, u2: seq<bool>, n2: Sector, d3: Disk,
                        n3: Sector,
                        live: set<nat>, ino: nat, idx: nat)
    requires Seen(d, u, live, ino, n) && idx < BLOCK_CNT && At(d[ino := n], ino, Data(idx)) == 0 && 2 <= v < |u| &&
             !u[v]
    requires Ensured(d, u[v := true], n, d2, u2, n2, live, ino, Tables(idx), v, true)
    requires Stepped(d2, u2, n2, d3, u2, n3, live, ino)
    requires At(d3[ino := n3], ino, Data(idx)) == v && SlotsExcept(d2[ino := n2], d3[ino := n3], ino, Data(idx))
    ensures Allocated(d, u, n, d3, u2, n3, live, ino, idx, true)
  {
    SteppedSelf(d, u, n, u[v := true], live, ino);
    SteppedTrans(d, u, n, d, u[v := true], n, d2, u2, n2, live, ino);
    SteppedTrans(d, u, n, d2, u2, n2, d3, u2, n3, live, ino);
    SteppedSeen(d2, u2, n2, d3, u2, n3, live, ino);
    hide Stepped, At, FreeCount, Need, Unowned;
    NeedPath(d[ino := n], ino, idx);
    FreeCountLess(u, v);
  }

  lemma AllocatedBlocks(d: Disk, u: seq<bool>, n: Sector, d': Disk, u': seq<bool>, n': Sector, live: set<nat>, ino: nat,
                        idx: nat, ok: bool)
    requires Allocated(d, u, n, d', u', n', live, ino, idx, ok)
    ensures Stepped(d, u, n, d', u', n', live, ino) && (!ok ==> NoneFree(u'))
    ensures if ok then SameBlocksBut(d[ino := n], d'[ino := n'], ino, idx)
            else SameBlocks(d[ino := n], d'[ino := n'], ino)
  {
    hide Stepped, At, FreeCount, Need;
  }

  /** The tables of block idx are there, the last of them in the sector its parent slot names. */
  lemma EnsuredParent(d: Disk, u: seq<bool>, n: Sector, d': Disk, u': seq<bool>, n': Sector, live: set<nat>, ino: nat,
                      idx: nat, keep: nat)
    requires Ensured(d, u, n, d', u', n', live, ino, Tables(idx), keep, true) && idx < BLOCK_CNT
    ensures Owned(d'[ino := n'], ino, Parent(Data(idx))) &&
            At(d'[ino := n'], ino, Data(idx)) == At(d[ino := n], ino, Data(idx))
    ensures Seen(d', u', live, ino, n') && |d'| == |d| && InUse(u', keep) && Unowned(d'[ino := n'], live, keep)
  {
    SteppedSeen(d, u, n, d', u', n', live, ino);
    hide Stepped, At, FreeCount, Need, Unowned;
  }

  // ---- the blocks of a write ---------------------------------------------------------

  /** The block after the last one that size bytes at off touch. */
  function LastBlock(off: nat, size: nat): nat
  {
    if size == 0 then off / SECTOR_SIZE else (off + size - 1) / SECTOR_SIZE + 1
  }

  /** The slots that size bytes at off need. */
  function Touched(off: nat, size: nat): set<Slot> { Paths(off / SECTOR_SIZE, LastBlock(off, size)) }

  /** What is still to be paid for, against what is left, is as at the start. */
  ghost predicate OnBudget(d0: Disk, u0: seq<bool>, e: Disk, u: seq<bool>, ino: nat, off: nat, size: nat, n: nat)
  {
    FreeCount(u) + Need(d0, ino, Touched(off, size)) ==
    FreeCount(u0) + Need(e, ino, if n >= size then {} else Paths((off + n) / SECTOR_SIZE, LastBlock(off, size)))
  }

  lemma BudgetStart(d: Disk, u: seq<bool>, ino: nat, off: nat, size: nat)
    ensures OnBudget(d, u, d, u, ino, off, size, 0)
  {
    if size == 0 { assert Paths(off / SECTOR_SIZE, off / SECTOR_SIZE) == {}; }
  }

  lemma NextBlock(off: nat, size: nat, n: nat, chunk: nat)
    requires n < size && chunk == Min(SECTOR_SIZE - (off + n) % SECTOR_SIZE, size - n)
    ensures (off + n) / SECTOR_SIZE < LastBlock(off, size)
    ensures n + chunk < size ==> (off + n + chunk) / SECTOR_SIZE == (off + n) / SECTOR_SIZE + 1
    ensures n + chunk == size ==> (off + n) / SECTOR_SIZE + 1 == LastBlock(off, size)
  {}

  lemma BudgetRound(d0: Disk, u0: seq<bool>, e: Disk, u: seq<bool>, e': Disk, u': seq<bool>, ino: nat, off: nat,
                    size: nat, n: nat, chunk: nat)
    requires OnBudget(d0, u0, e, u, ino, off, size, n) && n < size &&
             chunk == Min(SECTOR_SIZE - (off + n) % SECTOR_SIZE, size - n)
    requires var b := (off + n) / SECTOR_SIZE;
             SameOutside(e, e', ino, Path(b)) && AllThere(e', ino, Path(b)) && Spent(u, u', Need(e, ino, Path(b)), true)
    ensures OnBudget(d0, u0, e', u', ino, off, size, n + chunk)
  {
    hide At, FreeCount, Need, Path, SameOutside, AllThere;
    NextBlock(off, size, n, chunk);
    NeedAfter(e, e', ino, (off + n) / SECTOR_SIZE, LastBlock(off, size));
  }

  lemma BudgetBroken(d0: Disk, u0: seq<bool>, e: Disk, u: seq<bool>, u': seq<bool>, ino: nat, off: nat, size: nat,
                     n: nat)
    requires OnBudget(d0, u0, e, u, ino, off, size, n) && n < size
    requires Spent(u, u', Need(e, ino, Path((off + n) / SECTOR_SIZE)), false)
    ensures FreeCount(u0) < Need(d0, ino, Touched(off, size))
  {
    hide At, FreeCount, Need, Path;
    NextBlock(off, size, n, Min(SECTOR_SIZE - (off + n) % SECTOR_SIZE, size - n));
    NeedSubset(e, ino, (off + n) / SECTOR_SIZE, LastBlock(off, size));
  }

  lemma BudgetKept(d0: Disk, u0: seq<bool>, e: Disk, u: seq<bool>, ino: nat, off: nat, size: nat)
    requires OnBudget(d0, u0, e, u, ino, off, size, size)
    ensures FreeCount(u) + Need(d0, ino, Touched(off, size)) == FreeCount(u0)
  {
    assert Missing(e, ino, {}) == {};
  }

  /** Block b was made sure of: its path is there and paid for, or could not be paid for. */
  ghost predicate Paid(e: Disk, u: seq<bool>, e': Disk, u': seq<bool>, ino: nat, b: nat, ok: bool)
  {
    && SameOutside(e, e', ino, Path(b)) && (ok ==> AllThere(e', ino, Path(b)))
    && Spent(u, u', Need(e, ino, Path(b)), ok)
  }

  lemma AllocatedPaid(d: Disk, u: seq<bool>, n: Sector, d': Disk, u': seq<bool>, n': Sector, live: set<nat>, ino: nat,
                      b: nat, ok: bool)
    requires Allocated(d, u, n, d', u', n', live, ino, b, ok)
    ensures Stepped(d, u, n, d', u', n', live, ino) && Paid(d[ino := n], u, d'[ino := n'], u', ino, b, ok)
  {
    hide Stepped, At, FreeCount, Need;
  }

  lemma PaidSame(e: Disk, u: seq<bool>, e1: Disk, e2: Disk, u': seq<bool>, ino: nat, b: nat)
    requires Paid(e, u, e1, u', ino, b, true) && SameOutside(e1, e2, ino, {})
    ensures Paid(e, u, e2, u', ino, b, true)
  {
    hide At, FreeCount, Need;
  }

  lemma {:induction false} InPaths(lo: nat, hi: nat, b: nat)
    requires lo <= b < hi
    ensures Path(b) <= Paths(lo, hi)
    decreases hi - lo
  {
    if lo < b { InPaths(lo + 1, hi, b); }
  }

  lemma BudgetNext(d0: Disk, u0: seq<bool>, e: Disk, u: seq<bool>, e': Disk, u': seq<bool>, ino: nat, off: nat,
                   size: nat, n: nat,
                   chunk: nat, ok: bool)
    requires OnBudget(d0, u0, e, u, ino, off, size, n) && n < size &&
             chunk == Min(SECTOR_SIZE - (off + n) % SECTOR_SIZE, size - n)
    requires Paid(e, u, e', u', ino, (off + n) / SECTOR_SIZE, ok)
    ensures ok ==> OnBudget(d0, u0, e', u', ino, off, size, n + chunk)
    ensures !ok ==> FreeCount(u0) < Need(d0, ino, Touched(off, size)) && NoneFree(u')
    ensures SameOutside(d0, e, ino, Touched(off, size)) ==> SameOutside(d0, e', ino, Touched(off, size))
  {
    NextBlock(off, size, n, chunk);
    InPaths(off / SECTOR_SIZE, LastBlock(off, size), (off + n) / SECTOR_SIZE);
    hide At, FreeCount, Need, Path, Paths, OnBudget;
    if ok {
      BudgetRound(d0, u0, e, u, e', u', ino, off, size, n, chunk);
    } else {
      BudgetBroken(d0, u0, e, u, u', ino, off, size, n);
    }
  }
}
