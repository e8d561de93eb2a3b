/**
 The user-space heap: a first-fit free list over sbrk, kept in address order
 and merged with its neighbours whenever a block comes back.
 */
module UserHeap {
  import opened Options
  import NumberTheory

  // A block header is two 32-bit words.
  const HEADER_SIZE := 8
  const MIN_BLOCK := 16
  const PAGE := 4096

  datatype Block = Block(addr: nat, size: nat)

  function End(b: Block): nat { b.addr + b.size }

  predicate Apart(a: Block, b: Block) { End(a) <= b.addr || End(b) <= a.addr }

  predicate Within(b: Block, a: nat) { b.addr <= a < End(b) }

  predicate Proper(b: Block)
  {
    0 < b.addr && b.addr % HEADER_SIZE == 0 && b.size % HEADER_SIZE == 0 && MIN_BLOCK <= b.size
  }

  ghost predicate Covered(bs: seq<Block>, a: nat) { exists i :: 0 <= i < |bs| && Within(bs[i], a) }

  function Sum(bs: seq<Block>): nat { if bs == [] then 0 else bs[0].size + Sum(bs[1..]) }

  /** The free list, the blocks handed out (oldest first), and every region sbrk has given. */
  datatype Heap = Heap(free: seq<Block>, live: seq<Block>, regions: seq<Block>)

  const EMPTY_HEAP := Heap([], [], [])

  // ---- the invariant ---------------------------------------------------------------------

  /** Address order with a gap between neighbours: nothing left to merge. */
  ghost predicate Coalesced(bs: seq<Block>)
  {
    && (forall i :: 0 <= i < |bs| ==> Proper(bs[i]))
    && (forall i, j :: 0 <= i < j < |bs| ==> End(bs[i]) < bs[j].addr)
  }

  ghost predicate Disjoint(bs: seq<Block>)
  {
    && (forall i :: 0 <= i < |bs| ==> Proper(bs[i]))
    && (forall i, j :: 0 <= i < j < |bs| ==> Apart(bs[i], bs[j]))
  }

  ghost predicate AllApart(bs: seq<Block>, cs: seq<Block>)
  {
    forall i, j :: 0 <= i < |bs| && 0 <= j < |cs| ==> Apart(bs[i], cs[j])
  }

  /** Free and live blocks are the bytes obtained, and nothing is lost. */
  ghost predicate Accounted(h: Heap)
  {
    && Sum(h.free) + Sum(h.live) == Sum(h.regions)
    && forall a :: Covered(h.free, a) || Covered(h.live, a) <==> Covered(h.regions, a)
  }

  ghost predicate Inv(h: Heap)
  {
    Coalesced(h.free) && Disjoint(h.live) && AllApart(h.free, h.live) && Accounted(h)
  }

  lemma {:induction false} SumConcat(bs: seq<Block>, cs: seq<Block>)
    ensures Sum(bs + cs) == Sum(bs) + Sum(cs)
  {
    if bs == [] {
      assert bs + cs == cs;
    } else {
      SumConcat(bs[1..], cs);
      assert (bs + cs)[1..] == bs[1..] + cs;
    }
  }

  lemma CoveredConcat(bs: seq<Block>, cs: seq<Block>)
    ensures forall a :: Covered(bs + cs, a) <==> Covered(bs, a) || Covered(cs, a)
  {
    forall a ensures Covered(bs + cs, a) <==> Covered(bs, a) || Covered(cs, a) {
      if Covered(bs, a) {
        var i :| 0 <= i < |bs| && Within(bs[i], a);
        assert (bs + cs)[i] == bs[i];
      }
      if Covered(cs, a) {
        var i :| 0 <= i < |cs| && Within(cs[i], a);
        assert (bs + cs)[|bs| + i] == cs[i];
      }
    }
  }

  lemma Concat(bs: seq<Block>, cs: seq<Block>)
    ensures Sum(bs + cs) == Sum(bs) + Sum(cs)
    ensures forall a :: Covered(bs + cs, a) <==> Covered(bs, a) || Covered(cs, a)
  {
    SumConcat(bs, cs);
    CoveredConcat(bs, cs);
  }

  lemma Single(b: Block)
    ensures Sum([b]) == b.size
    ensures forall a :: Covered([b], a) <==> Within(b, a)
  {
    forall a ensures Covered([b], a) <==> Within(b, a) {
      if Within(b, a) { assert Within([b][0], a); }
    }
  }

  /** A list taken apart at i: what is before, the i-th block, what is after. */
  lemma Split(bs: seq<Block>, i: nat)
    requires i < |bs|
    ensures bs == bs[..i] + [bs[i]] + bs[i + 1..]
    ensures Sum(bs) == Sum(bs[..i]) + bs[i].size + Sum(bs[i + 1..])
    ensures forall a :: Covered(bs, a) <==> Covered(bs[..i], a) || Within(bs[i], a) || Covered(bs[i + 1..], a)
  {
    hide Sum, Covered, Within;
    Parts(bs, i);
    Rejoin(bs[..i], bs[i], bs[i + 1..]);
  }

  lemma Parts(bs: seq<Block>, i: nat)
    requires i < |bs|
    ensures bs == bs[..i] + [bs[i]] + bs[i + 1..]
  {}

  lemma Rejoin(before: seq<Block>, b: Block, after: seq<Block>)
    ensures Sum(before + [b] + after) == Sum(before) + b.size + Sum(after)
    ensures forall a :: Covered(before + [b] + after, a) <==> Covered(before, a) || Within(b, a) || Covered(after, a)
  {
    hide Sum, Covered, Within;
    Concat(before + [b], after);
    Concat(before, [b]);
    Single(b);
  }

  // ---- returning a block -----------------------------------------------------------------

  /** The first free block at or above addr. */
  function Position(free: seq<Block>, addr: nat): (i: nat)
    ensures i <= |free|
    ensures forall k :: 0 <= k < i ==> free[k].addr < addr
    ensures i < |free| ==> addr <= free[i].addr
  {
    if free == [] || addr <= free[0].addr then 0 else 1 + Position(free[1..], addr)
  }

  /** b and the free blocks from i on, merged with the first of them if they touch. */
  function MergeNext(free: seq<Block>, i: nat, b: Block): (r: seq<Block>)
    requires i <= |free|
    ensures |r| >= 1
  {
    if i < |free| && End(b) == free[i].addr
    then [Merged(b, free[i])] + free[i + 1..]
    else [b] + free[i..]
  }

  function MergePrevious(before: seq<Block>, rest: seq<Block>): seq<Block>
    requires |rest| >= 1
  {
    var n := |before|;
    if n > 0 && End(before[n - 1]) == rest[0].addr
    then before[..n - 1] + [Merged(before[n - 1], rest[0])] + rest[1..]
    else before + rest
  }

  function Insert(free: seq<Block>, b: Block): seq<Block>
  {
    var i := Position(free, b.addr);
    MergePrevious(free[..i], MergeNext(free, i, b))
  }

  ghost predicate ApartFrom(b: Block, bs: seq<Block>) { forall k :: 0 <= k < |bs| ==> Apart(b, bs[k]) }

  /** Two touching blocks as one. */
  function Merged(b: Block, c: Block): Block { Block(b.addr, b.size + c.size) }

  lemma MergedProper(b: Block, c: Block)
    requires Proper(b) && Proper(c) && End(b) == c.addr
    ensures Proper(Merged(b, c)) && End(Merged(b, c)) == End(c)
    ensures forall a :: Within(Merged(b, c), a) <==> Within(b, a) || Within(c, a)
  {}

  lemma Join(bs: seq<Block>, cs: seq<Block>)
    requires Coalesced(bs) && Coalesced(cs)
    requires bs != [] && cs != [] ==> End(bs[|bs| - 1]) < cs[0].addr
    ensures Coalesced(bs + cs)
  {
    hide Proper;
    if bs != [] && cs != [] {
      assert forall i :: 0 <= i < |bs| ==> End(bs[i]) <= End(bs[|bs| - 1]);
      assert forall j :: 0 <= j < |cs| ==> cs[0].addr <= cs[j].addr;
    }
  }

  lemma Slices(bs: seq<Block>, i: nat)
    requires Coalesced(bs) && i <= |bs|
    ensures Coalesced(bs[..i]) && Coalesced(bs[i..])
  {
    hide Proper;
  }

  lemma Join3(before: seq<Block>, b: Block, after: seq<Block>)
    requires Coalesced(before) && Proper(b) && Coalesced(after)
    requires before != [] ==> End(before[|before| - 1]) < b.addr
    requires after != [] ==> End(b) < after[0].addr
    ensures Coalesced(before + [b] + after)
  {
    assert Coalesced([b]);
    Join(before, [b]);
    Join(before + [b], after);
  }

  /** Merging keeps the order and leaves no touching neighbours. */
  lemma MergeNextShape(free: seq<Block>, i: nat, b: Block)
    requires Coalesced(free) && Proper(b) && ApartFrom(b, free) && i == Position(free, b.addr)
    ensures Coalesced(MergeNext(free, i, b)) && MergeNext(free, i, b)[0].addr == b.addr
  {
    Slices(free, i);
    assert Coalesced([b]);
    if i < |free| {
      assert Apart(b, free[i]) && Proper(free[i]);
      assert i + 1 < |free| ==> End(free[i]) < free[i + 1].addr;
      hide ApartFrom, Position;
      if End(b) == free[i].addr {
        MergedProper(b, free[i]);
        Slices(free, i + 1);
        assert Coalesced([Merged(b, free[i])]);
        Join([Merged(b, free[i])], free[i + 1..]);
      } else {
        Join([b], free[i..]);
      }
    }
  }

  /** It covers the same bytes. */
  lemma MergeNextBytes(free: seq<Block>, i: nat, b: Block)
    requires Coalesced(free) && Proper(b) && i <= |free|
    ensures Sum(MergeNext(free, i, b)) == b.size + Sum(free[i..])
    ensures forall a :: Covered(MergeNext(free, i, b), a) <==> Within(b, a) || Covered(free[i..], a)
  {
    Concat([b], free[i..]);
    Single(b);
    if i < |free| && End(b) == free[i].addr {
      var m := Merged(b, free[i]);
      MergedProper(b, free[i]);
      Concat([m], free[i + 1..]);
      Single(m);
      Single(free[i]);
      assert free[i..] == [free[i]] + free[i + 1..];
      Concat([free[i]], free[i + 1..]);
      hide Sum, Covered, Proper, Within, Coalesced;
    }
  }

  lemma MergePreviousShape(before: seq<Block>, rest: seq<Block>)
    requires Coalesced(before) && Coalesced(rest) && |rest| >= 1
    requires before != [] ==> End(before[|before| - 1]) <= rest[0].addr
    ensures Coalesced(MergePrevious(before, rest))
  {
    var n := |before|;
    if n > 0 && End(before[n - 1]) == rest[0].addr {
      MergedProper(before[n - 1], rest[0]);
      Slices(before, n - 1);
      Slices(rest, 1);
      Join3(before[..n - 1], Merged(before[n - 1], rest[0]), rest[1..]);
    } else {
      Join(before, rest);
    }
  }

  lemma MergePreviousBytes(before: seq<Block>, rest: seq<Block>)
    requires Coalesced(before) && Coalesced(rest) && |rest| >= 1
    ensures Sum(MergePrevious(before, rest)) == Sum(before) + Sum(rest)
    ensures forall a :: Covered(MergePrevious(before, rest), a) <==> Covered(before, a) || Covered(rest, a)
  {
    var n := |before|;
    Concat(before, rest);
    if n > 0 && End(before[n - 1]) == rest[0].addr {
      var m := Merged(before[n - 1], rest[0]);
      MergedProper(before[n - 1], rest[0]);
      Rejoin(before[..n - 1], m, rest[1..]);
      Split(before, n - 1);
      Split(rest, 0);
      NoBytes(before[n..]);
      NoBytes(rest[..0]);
      hide Sum, Covered, Proper, Within, Coalesced;
    }
  }

  lemma NoBytes(bs: seq<Block>)
    requires bs == []
    ensures Sum(bs) == 0
    ensures forall a :: !Covered(bs, a)
  {}

  lemma InsertKeeps(free: seq<Block>, b: Block)
    requires Coalesced(free) && Proper(b) && ApartFrom(b, free)
    ensures Coalesced(Insert(free, b))
    ensures Sum(Insert(free, b)) == Sum(free) + b.size
    ensures forall a :: Covered(Insert(free, b), a) <==> Covered(free, a) || Within(b, a)
  {
    var i := Position(free, b.addr);
    var before, rest := free[..i], MergeNext(free, i, b);
    MergeNextShape(free, i, b);
    MergeNextBytes(free, i, b);
    assert free == before + free[i..];
    Concat(before, free[i..]);
    Slices(free, i);
    assert i > 0 ==> Apart(b, free[i - 1]) && Proper(free[i - 1]);
    hide MergeNext, MergePrevious, Position, Sum, Covered, Coalesced, Proper;
    MergePreviousShape(before, rest);
    MergePreviousBytes(before, rest);
  }

  // ---- the two operations ----------------------------------------------------------------

  function Max(a: nat, b: nat): nat { if a < b then b else a }

  /** Bytes taken for a request: header, padding for the alignment, payload, rounded up. */
  function Total(size: nat, align: nat): (t: nat)
    ensures t % HEADER_SIZE == 0 && MIN_BLOCK <= t && HEADER_SIZE + size <= t
  {
    var t := Max(HEADER_SIZE + (Max(align, HEADER_SIZE) - 1) + size, MIN_BLOCK);
    (t + HEADER_SIZE - 1) / HEADER_SIZE * HEADER_SIZE
  }

  /** The first free block of at least total bytes, or the length of the list. */
  function FirstFit(free: seq<Block>, total: nat): (i: nat)
    ensures i <= |free|
    ensures forall k :: 0 <= k < i ==> free[k].size < total
    ensures i < |free| ==> total <= free[i].size
  {
    if free == [] || total <= free[0].size then 0 else 1 + FirstFit(free[1..], total)
  }

  function Growth(total: nat): nat { Max(total, PAGE) }

  datatype Allocation = Allocation(heap: Heap, block: Option<Block>)

  function TakeFit(h: Heap, i: nat, total: nat): Allocation
    requires i < |h.free| && total <= h.free[i].size
  {
    var b := h.free[i];
    var remainder := b.size - total;
    if remainder >= MIN_BLOCK then
      var n := Block(b.addr + remainder, total);
      Allocation(Heap(h.free[..i] + [Block(b.addr, remainder)] + h.free[i + 1..], h.live + [n], h.regions), Some(n))
    else
      Allocation(Heap(h.free[..i] + h.free[i + 1..], h.live + [b], h.regions), Some(b))
  }

  function TakeNew(h: Heap, base: nat, total: nat): Allocation
  {
    var grow := Growth(total);
    var region := Block(base, grow);
    if grow > total && grow - total >= MIN_BLOCK then
      var n := Block(base, total);
      Allocation(Heap(Insert(h.free, Block(base + total, grow - total)), h.live + [n], h.regions + [region]), Some(n))
    else
      Allocation(Heap(h.free, h.live + [region], h.regions + [region]), Some(region))
  }

  /** One allocation; sbrk is consulted only when no free block fits. */
  function Alloc(h: Heap, total: nat, sbrk: Option<nat>): Allocation
  {
    var i := FirstFit(h.free, total);
    if i < |h.free| then TakeFit(h, i, total)
    else if sbrk.None? then Allocation(h, None)
    else TakeNew(h, sbrk.value, total)
  }

  function Free(h: Heap, k: nat): Heap
    requires k < |h.live|
  {
    Heap(Insert(h.free, h.live[k]), h.live[..k] + h.live[k + 1..], h.regions)
  }

  /** What sbrk promises: a new region, off every earlier one, at a word-pair boundary. */
  ghost predicate SbrkOk(h: Heap, total: nat, sbrk: Option<nat>)
  {
    sbrk.Some? ==>
      0 < sbrk.value && sbrk.value % HEADER_SIZE == 0 && ApartFrom(Block(sbrk.value, Growth(total)), h.regions)
  }

  predicate Request(total: nat) { total % HEADER_SIZE == 0 && MIN_BLOCK <= total }

  /** A free block kept in part, or given away whole. */
  lemma ShrunkShape(free: seq<Block>, i: nat, kept: Block)
    requires Coalesced(free) && i < |free| && Proper(kept) && free[i].addr == kept.addr && End(kept) <= End(free[i])
    ensures Coalesced(free[..i] + [kept] + free[i + 1..])
  {
    Slices(free, i);
    Slices(free, i + 1);
    Join3(free[..i], kept, free[i + 1..]);
  }

  lemma RemovedShape(free: seq<Block>, i: nat)
    requires Coalesced(free) && i < |free|
    ensures Coalesced(free[..i] + free[i + 1..])
  {
    Slices(free, i);
    Slices(free, i + 1);
    assert Proper(free[i]);
    Join(free[..i], free[i + 1..]);
  }

  /** A block carved out of a free block is off every live block, and off the free blocks left. */
  lemma NewLive(h: Heap, n: Block, i: nat)
    requires Inv(h) && i < |h.free| && Proper(n) && h.free[i].addr <= n.addr && End(n) <= End(h.free[i])
    ensures Disjoint(h.live + [n])
    ensures forall k :: 0 <= k < |h.free| && k != i ==> Apart(h.free[k], n)
  {
    forall j | 0 <= j < |h.live| ensures Apart(h.live[j], n) {
      assert Apart(h.free[i], h.live[j]);
    }
    hide Proper;
  }

  lemma CarveProper(b: Block, total: nat)
    requires Proper(b) && Request(total) && total + MIN_BLOCK <= b.size
    ensures Proper(Block(b.addr, b.size - total)) && Proper(Block(b.addr + (b.size - total), total))
  {}

  lemma TakeFitDisjoint(h: Heap, i: nat, total: nat)
    requires Inv(h) && Request(total) && i < |h.free| && total <= h.free[i].size
    ensures var r := TakeFit(h, i, total).heap; Coalesced(r.free) && Disjoint(r.live) && AllApart(r.free, r.live)
  {
    var b := h.free[i];
    assert Proper(b);
    var r := TakeFit(h, i, total);
    var n := r.block.value;
    if b.size - total >= MIN_BLOCK {
      var kept := Block(b.addr, b.size - total);
      CarveProper(b, total);
      NewLive(h, n, i);
      hide Proper, Coalesced, Disjoint;
      ShrunkShape(h.free, i, kept);
      CarvedApart(h.free, h.live, i, kept, n);
    } else {
      NewLive(h, n, i);
      hide Proper, Coalesced, Disjoint;
      RemovedShape(h.free, i);
      RemovedApart(h.free, h.live, i, n);
    }
  }

  lemma CarvedApart(free: seq<Block>, live: seq<Block>, i: nat, kept: Block, n: Block)
    requires AllApart(free, live) && i < |free| && free[i].addr == kept.addr && End(kept) == n.addr &&
             End(n) == End(free[i])
    requires forall k :: 0 <= k < |free| && k != i ==> Apart(free[k], n)
    ensures AllApart(free[..i] + [kept] + free[i + 1..], live + [n])
  {
    var free' := free[..i] + [kept] + free[i + 1..];
    forall k, j | 0 <= k < |free'| && 0 <= j <= |live| ensures Apart(free'[k], (live + [n])[j]) {
      assert free'[k] == if k == i then kept else free[k];
      if j < |live| { assert Apart(free[k], live[j]); }
    }
  }

  lemma RemovedApart(free: seq<Block>, live: seq<Block>, i: nat, n: Block)
    requires AllApart(free, live) && i < |free|
    requires forall k :: 0 <= k < |free| && k != i ==> Apart(free[k], n)
    ensures AllApart(free[..i] + free[i + 1..], live + [n])
  {
    var free' := free[..i] + free[i + 1..];
    forall k, j | 0 <= k < |free'| && 0 <= j <= |live| ensures Apart(free'[k], (live + [n])[j]) {
      var m := if k < i then k else k + 1;
      assert free'[k] == free[m];
      if j < |live| { assert Apart(free[m], live[j]); }
    }
  }

  lemma TakeFitAccounted(h: Heap, i: nat, total: nat)
    requires Accounted(h) && i < |h.free| && total <= h.free[i].size
    ensures Accounted(TakeFit(h, i, total).heap)
  {
    var b := h.free[i];
    var n := TakeFit(h, i, total).block.value;
    Split(h.free, i);
    Concat(h.live, [n]);
    Single(n);
    if b.size - total >= MIN_BLOCK {
      var kept := Block(b.addr, b.size - total);
      assert forall a :: Within(b, a) <==> Within(kept, a) || Within(n, a);
      Rejoin(h.free[..i], kept, h.free[i + 1..]);
      hide Sum, Covered, Within;
    } else {
      Concat(h.free[..i], h.free[i + 1..]);
      hide Sum, Covered, Within;
    }
  }

  /** A byte of a region that is off all earlier ones is not in them. */
  lemma NotShared(region: Block, regions: seq<Block>, a: nat)
    requires ApartFrom(region, regions)
    ensures !(Covered(regions, a) && Within(region, a))
  {}

  /** A block inside a region that is off all earlier regions is off all earlier blocks. */
  lemma OffOld(h: Heap, b: Block, bs: seq<Block>, region: Block)
    requires Accounted(h) && (bs == h.free || bs == h.live) && ApartFrom(region, h.regions)
    requires region.addr <= b.addr && End(b) <= End(region) && 0 < b.size
    requires forall k :: 0 <= k < |bs| ==> Proper(bs[k])
    ensures ApartFrom(b, bs)
  {
    forall k | 0 <= k < |bs| ensures Apart(b, bs[k]) {
      var a := Max(b.addr, bs[k].addr);
      NotShared(region, h.regions, a);
      assert Within(bs[k], a) ==> Covered(bs, a);
    }
  }

  /** Blocks that share no byte are apart. */
  lemma ApartByBytes(bs: seq<Block>, c: Block)
    requires (forall k :: 0 <= k < |bs| ==> Proper(bs[k])) && 0 < c.size
    requires forall a :: Within(c, a) ==> !Covered(bs, a)
    ensures ApartFrom(c, bs)
  {
    forall k | 0 <= k < |bs| ensures Apart(c, bs[k]) {
      var a := Max(c.addr, bs[k].addr);
      assert Within(bs[k], a) ==> Covered(bs, a);
    }
  }

  /** Whatever is off the free list and off the block put back is off the new free list. */
  lemma InsertApart(free: seq<Block>, b: Block, c: Block)
    requires Coalesced(free) && Proper(b) && ApartFrom(b, free) && Proper(c) && ApartFrom(c, free) && Apart(b, c)
    ensures ApartFrom(c, Insert(free, b))
  {
    InsertKeeps(free, b);
    forall a | Within(c, a) ensures !Covered(Insert(free, b), a) {
      NotShared(c, free, a);
    }
    hide Insert;
    ApartByBytes(Insert(free, b), c);
  }

  lemma InsertAllApart(free: seq<Block>, b: Block, live: seq<Block>)
    requires Coalesced(free) && Proper(b) && ApartFrom(b, free)
    requires Disjoint(live) && AllApart(free, live) && ApartFrom(b, live)
    ensures AllApart(Insert(free, b), live)
  {
    forall i, j | 0 <= i < |Insert(free, b)| && 0 <= j < |live| ensures Apart(Insert(free, b)[i], live[j]) {
      assert forall k :: 0 <= k < |free| ==> Apart(free[k], live[j]);
      InsertApart(free, b, live[j]);
    }
  }

  lemma AppendLive(free: seq<Block>, live: seq<Block>, n: Block)
    requires Disjoint(live) && AllApart(free, live) && Proper(n) && ApartFrom(n, live) && ApartFrom(n, free)
    ensures Disjoint(live + [n]) && AllApart(free, live + [n])
  {
    hide Proper;
  }

  /** The blocks a new region is cut into. */
  lemma NewProper(base: nat, total: nat)
    requires 0 < base && base % HEADER_SIZE == 0 && Request(total)
    ensures Proper(Block(base, total)) && Proper(Block(base, Growth(total)))
    ensures Growth(total) - total >= MIN_BLOCK ==> Proper(Block(base + total, Growth(total) - total))
  {}

  lemma NewApart(h: Heap, base: nat, total: nat, b: Block)
    requires Inv(h) && SbrkOk(h, total, Some(base)) && base <= b.addr && End(b) <= base + Growth(total) && 0 < b.size
    ensures ApartFrom(b, h.free) && ApartFrom(b, h.live)
  {
    OffOld(h, b, h.free, Block(base, Growth(total)));
    OffOld(h, b, h.live, Block(base, Growth(total)));
  }

  lemma TakeNewDisjoint(h: Heap, base: nat, total: nat)
    requires Inv(h) && Request(total) && SbrkOk(h, total, Some(base))
    ensures var r := TakeNew(h, base, total).heap; Coalesced(r.free) && Disjoint(r.live) && AllApart(r.free, r.live)
  {
    hide Insert, Coalesced, Disjoint, AllApart, ApartFrom, Accounted, Proper;
    NewProper(base, total);
    var n := TakeNew(h, base, total).block.value;
    assert 0 < n.size by { hide *; BlockSize(n); }
    NewApart(h, base, total, n);
    AppendLive(h.free, h.live, n);
    var rest := Block(base + total, Growth(total) - total);
    if rest.size >= MIN_BLOCK {
      NewApart(h, base, total, rest);
      InsertKeeps(h.free, rest);
      assert ApartFrom(rest, h.live + [n]) by { ApartAppend(rest, h.live, n); }
      InsertAllApart(h.free, rest, h.live + [n]);
    }
  }

  lemma BlockSize(b: Block)
    requires Proper(b)
    ensures 0 < b.size
  {}

  lemma ApartAppend(b: Block, bs: seq<Block>, c: Block)
    requires ApartFrom(b, bs) && Apart(b, c)
    ensures ApartFrom(b, bs + [c])
  {}

  lemma TakeNewAccounted(h: Heap, base: nat, total: nat)
    requires Inv(h) && Request(total) && SbrkOk(h, total, Some(base))
    ensures Accounted(TakeNew(h, base, total).heap)
  {
    hide Insert, Coalesced, Disjoint, AllApart, ApartFrom, Proper, Sum, Covered;
    var region, n := Block(base, Growth(total)), TakeNew(h, base, total).block.value;
    NewProper(base, total);
    Concat(h.live, [n]);
    Single(n);
    Concat(h.regions, [region]);
    Single(region);
    var rest := Block(base + total, Growth(total) - total);
    if rest.size >= MIN_BLOCK {
      NewApart(h, base, total, rest);
      InsertKeeps(h.free, rest);
      assert forall a :: Within(region, a) <==> Within(n, a) || Within(rest, a);
    }
    hide Within;
  }

  /** An allocation keeps the invariant; with no fit and no memory it changes nothing. */
  lemma AllocKeeps(h: Heap, total: nat, sbrk: Option<nat>)
    requires Inv(h) && Request(total) && SbrkOk(h, total, sbrk)
    ensures Inv(Alloc(h, total, sbrk).heap)
  {
    hide TakeFit, TakeNew, Coalesced, Disjoint, AllApart, Accounted;
    var i := FirstFit(h.free, total);
    if i < |h.free| {
      TakeFitDisjoint(h, i, total);
      TakeFitAccounted(h, i, total);
    } else if sbrk.Some? {
      TakeNewDisjoint(h, sbrk.value, total);
      TakeNewAccounted(h, sbrk.value, total);
    }
  }

  lemma RemoveLive(live: seq<Block>, free: seq<Block>, k: nat)
    requires Disjoint(live) && AllApart(free, live) && k < |live|
    ensures var rest := live[..k] + live[k + 1..];
            Disjoint(rest) && AllApart(free, rest) && ApartFrom(live[k], rest) && ApartFrom(live[k], free)
  {
    hide Proper;
  }

  lemma FreeAccounted(h: Heap, k: nat)
    requires Accounted(h) && k < |h.live|
    requires Coalesced(h.free) && Proper(h.live[k]) && ApartFrom(h.live[k], h.free)
    ensures Accounted(Free(h, k))
  {
    Split(h.live, k);
    Concat(h.live[..k], h.live[k + 1..]);
    InsertKeeps(h.free, h.live[k]);
    hide Insert, Coalesced, Sum, Covered, Within;
  }

  lemma FreeKeeps(h: Heap, k: nat)
    requires Inv(h) && k < |h.live|
    ensures Inv(Free(h, k))
  {
    var b := h.live[k];
    RemoveLive(h.live, h.free, k);
    FreeAccounted(h, k);
    InsertKeeps(h.free, b);
    assert Proper(b);
    hide Insert, Coalesced, Disjoint, AllApart, Accounted;
    InsertAllApart(h.free, b, h.live[..k] + h.live[k + 1..]);
  }

  /** What the caller gets: a live block with room for the payload, or nothing only when no
      free block fits and sbrk has failed. */
  lemma AllocResult(h: Heap, size: nat, align: nat, sbrk: Option<nat>)
    requires Inv(h) && SbrkOk(h, Total(size, align), sbrk)
    ensures var r := Alloc(h, Total(size, align), sbrk);
            match r.block
            case Some(b) => r.heap.live == h.live + [b] && Proper(b) && HEADER_SIZE + size <= b.size
            case None => r.heap == h && sbrk.None? && forall k :: 0 <= k < |h.free| ==>
                h.free[k].size < Total(size, align)
  {
    var total := Total(size, align);
    AllocKeeps(h, total, sbrk);
    var r := Alloc(h, total, sbrk);
    if r.block.Some? { assert r.heap.live[|h.live|] == r.block.value; }
  }

  /** A request takes little more than it needs: less than a smallest block beyond its rounded total, and
      that less than two headers and the alignment beyond the payload; the heap grows only if nothing
      fits, and by a page or the total. */
  lemma AllocIsTight(h: Heap, size: nat, align: nat, sbrk: Option<nat>)
    ensures var total := Total(size, align);
            var r := Alloc(h, total, sbrk);
            && total < Max(size + 2 * HEADER_SIZE + Max(align, HEADER_SIZE) - 1, MIN_BLOCK + HEADER_SIZE)
            && (r.block.Some? ==> total <= r.block.value.size < total + MIN_BLOCK)
            && ((exists k :: 0 <= k < |h.free| && total <= h.free[k].size) ==>
                r.block.Some? && r.heap.regions == h.regions)
            && ((forall k :: 0 <= k < |h.free| ==> h.free[k].size < total) && sbrk.Some? ==>
                r.block.Some? && r.heap.regions == h.regions + [Block(sbrk.value, Max(total, PAGE))])
  {
    var t := Max(HEADER_SIZE + (Max(align, HEADER_SIZE) - 1) + size, MIN_BLOCK);
    assert Total(size, align) < t + HEADER_SIZE;
    hide Insert;
  }

  lemma InsertHolds(free: seq<Block>, b: Block) returns (j: nat)
    ensures j < |Insert(free, b)| && b.size <= Insert(free, b)[j].size
  {
    var i := Position(free, b.addr);
    var before, rest := free[..i], MergeNext(free, i, b);
    assert b.size <= rest[0].size;
    var n := |before|;
    j := if n > 0 && End(before[n - 1]) == rest[0].addr then n - 1 else n;
    assert MergePrevious(before, rest)[j].size >= rest[0].size;
  }

  /** A block given back can be had again: a request that fits it is met without sbrk. */
  lemma FreedIsReusable(h: Heap, k: nat, total: nat)
    requires k < |h.live| && total <= h.live[k].size
    ensures Alloc(Free(h, k), total, None).block.Some?
  {
    var j := InsertHolds(h.free, h.live[k]);
    hide Insert;
  }

  // ---- every run ---------------------------------------------------------------------------

  datatype Op = Malloc(size: nat, align: nat, sbrk: Option<nat>) | Release(k: nat)

  ghost predicate Allowed(h: Heap, op: Op)
  {
    match op
    case Malloc(size, align, sbrk) => SbrkOk(h, Total(size, align), sbrk)
    case Release(k) => k < |h.live|
  }

  ghost function Apply(h: Heap, op: Op): Heap
    requires Allowed(h, op)
  {
    match op
    case Malloc(size, align, sbrk) => Alloc(h, Total(size, align), sbrk).heap
    case Release(k) => Free(h, k)
  }

  /** hs is a run of the heap from empty. */
  ghost predicate Run(hs: seq<Heap>, ops: seq<Op>)
  {
    && |hs| == |ops| + 1 && hs[0] == EMPTY_HEAP
    && forall i :: 0 <= i < |ops| ==> Allowed(hs[i], ops[i]) && hs[i + 1] == Apply(hs[i], ops[i])
  }

  lemma {:induction false} RunKeepsInv(hs: seq<Heap>, ops: seq<Op>, i: nat)
    requires Run(hs, ops) && i < |hs|
    ensures Inv(hs[i])
  {
    if i > 0 {
      RunKeepsInv(hs, ops, i - 1);
      assert hs[i - 1 + 1] == Apply(hs[i - 1], ops[i - 1]);
      hide Inv, Alloc, Free, Insert;
      match ops[i - 1]
      case Malloc(size, align, sbrk) => AllocKeeps(hs[i - 1], Total(size, align), sbrk);
      case Release(k) => FreeKeeps(hs[i - 1], k);
    }
  }

  ghost predicate Contiguous(regions: seq<Block>)
  {
    forall i :: 0 < i < |regions| ==> regions[i].addr == End(regions[i - 1])
  }

  lemma {:induction false} ContiguousBytes(regions: seq<Block>)
    requires Contiguous(regions) && regions != []
    ensures regions[0].addr + Sum(regions) == End(regions[|regions| - 1])
    ensures forall a: nat :: Covered(regions, a) <==> regions[0].addr <= a < regions[0].addr + Sum(regions)
  {
    var n := |regions| - 1;
    Split(regions, n);
    NoBytes(regions[n + 1..]);
    if n == 0 {
      NoBytes(regions[..0]);
    } else {
      ContiguousBytes(regions[..n]);
    }
    hide Sum, Covered;
  }

  /** The byte just past the first block lies in the gap to the second. */
  lemma GapNotCovered(bs: seq<Block>)
    requires Coalesced(bs) && |bs| > 1
    ensures !Covered(bs, End(bs[0])) && End(bs[0]) < bs[1].addr
  {}

  lemma EndsCovered(bs: seq<Block>, k: nat)
    requires Coalesced(bs) && k < |bs|
    ensures Covered(bs, bs[k].addr) && Covered(bs, End(bs[k]) - 1)
  {
    assert Within(bs[k], bs[k].addr) && Within(bs[k], End(bs[k]) - 1);
  }

  /** A merged list that covers one interval is one block. */
  lemma OneBlock(bs: seq<Block>, lo: nat, hi: nat)
    requires Coalesced(bs) && lo < hi && forall a: nat :: Covered(bs, a) <==> lo <= a < hi
    ensures bs == [Block(lo, hi - lo)]
  {
    assert Covered(bs, lo);
    EndsCovered(bs, 0);
    if |bs| > 1 {
      GapNotCovered(bs);
      EndsCovered(bs, 1);
      hide Covered, Coalesced;
      assert false;
    }
    assert Covered(bs, hi - 1);
  }

  /** However blocks were split, merged and freed, once all are back a heap grown contiguously
      is a single free block again. */
  lemma AllFreedIsOneBlock(hs: seq<Heap>, ops: seq<Op>)
    requires Run(hs, ops)
    ensures var h := hs[|ops|];
            h.live == [] && h.regions != [] && Contiguous(h.regions) ==>
                h.free == [Block(h.regions[0].addr, Sum(h.regions))]
  {
    RunKeepsInv(hs, ops, |ops|);
    RunRegions(hs, ops, |ops|);
    var h := hs[|ops|];
    if h.live == [] && h.regions != [] && Contiguous(h.regions) {
      var lo, size := h.regions[0].addr, Sum(h.regions);
      ContiguousBytes(h.regions);
      NoBytes(h.live);
      Split(h.regions, 0);
      hide Sum;
      OneBlock(h.free, lo, lo + size);
    }
  }

  lemma {:induction false} RunRegions(hs: seq<Heap>, ops: seq<Op>, i: nat)
    requires Run(hs, ops) && i < |hs|
    ensures forall k :: 0 <= k < |hs[i].regions| ==> hs[i].regions[k].size >= PAGE
  {
    if i > 0 {
      RunRegions(hs, ops, i - 1);
      assert hs[i - 1 + 1] == Apply(hs[i - 1], ops[i - 1]);
      hide Insert;
    }
  }

  // ---- alignment ----------------------------------------------------------------------------

  predicate PowerOfTwo(n: nat) { n == 1 || (n > 0 && n % 2 == 0 && PowerOfTwo(n / 2)) }

  lemma Half(n: nat) returns (h: nat)
    requires PowerOfTwo(n) && n > 1
    ensures n == 2 * h && PowerOfTwo(h)
  {
    h := n / 2;
  }

  lemma PowerShape(n: nat)
    requires PowerOfTwo(n)
    ensures n == 1 || n == 2 || n == 4 || n == 8 || (n > 0 && n % 16 == 0)
  {
    assert n > 0;
    hide PowerOfTwo;
    if n > 8 {
      var a := Half(n);
      var b := Half(a);
      var c := Half(b);
      var d := Half(c);
      NumberTheory.RemainderUnique(n, 16, d, 0);
    } else if n > 4 {
      var a := Half(n);
      var b := Half(a);
      var c := Half(b);
    } else if n > 2 {
      var a := Half(n);
    }
  }

  predicate Multiple(a: nat, align: nat)
    requires 0 < align
  {
    a % align == 0
  }

  ghost predicate PointerAligned(h: Heap, size: nat, align: nat, sbrk: Option<nat>)
    requires 0 < align
  {
    var r := Alloc(h, Total(size, align), sbrk).block;
    r.Some? ==> Multiple(r.value.addr + HEADER_SIZE, align)
  }

  /** Every pointer handed out for this alignment is a multiple of it, in every heap. */
  ghost predicate Honoured(align: nat)
    requires 0 < align
  {
    forall h: Heap, size: nat, sbrk: Option<nat> ::
      Inv(h) && SbrkOk(h, Total(size, align), sbrk) ==> PointerAligned(h, size, align, sbrk)
  }

  lemma MultipleOf16(a: nat, align: nat)
    requires align > 0 && align % 16 == 0 && Multiple(a, align)
    ensures a % 16 == 0
  {
    var q, m := a / align, align / 16;
    assert a == align * q == 16 * (m * q);
  }

  lemma EightIsMultiple(a: nat, align: nat)
    requires align == 1 || align == 2 || align == 4 || align == 8
    requires a % 8 == 0
    ensures Multiple(a + 8, align)
  {
    if align == 1 {
      assert Multiple(a + 8, 1);
    } else if align == 2 {
      assert Multiple(a + 8, 2);
    } else if align == 4 {
      assert Multiple(a + 8, 4);
    } else {
      assert Multiple(a + 8, 8);
    }
  }

  lemma SmallAlignment(h: Heap, size: nat, align: nat, sbrk: Option<nat>)
    requires align == 1 || align == 2 || align == 4 || align == 8
    requires Inv(h) && SbrkOk(h, Total(size, align), sbrk)
    ensures PointerAligned(h, size, align, sbrk)
  {
    hide Alloc, Inv, SbrkOk, Total, Multiple;
    AllocResult(h, size, align, sbrk);
    var r := Alloc(h, Total(size, align), sbrk).block;
    if r.Some? { EightIsMultiple(r.value.addr, align); }
  }

  /** The first allocation of a page-aligned heap is 8 past a multiple of 16. */
  lemma LargeAlignment(align: nat)
    requires align > 0 && align % 16 == 0
    ensures Inv(EMPTY_HEAP) && SbrkOk(EMPTY_HEAP, Total(1, align), Some(PAGE))
    ensures !PointerAligned(EMPTY_HEAP, 1, align, Some(PAGE))
  {
    NoBytes(EMPTY_HEAP.free);
    hide Insert, Total;
    var a := PAGE + HEADER_SIZE;
    assert a % 16 == 8;
    if Multiple(a, align) { MultipleOf16(a, align); }
  }

  /** The padding is reserved but the pointer is not moved: alignment is met exactly up to 8. */
  lemma AlignedUpToEight(align: nat)
    requires PowerOfTwo(align)
    ensures Honoured(align) <==> align <= HEADER_SIZE
  {
    PowerShape(align);
    hide Inv, SbrkOk, PointerAligned;
    if align <= HEADER_SIZE {
      forall h: Heap, size: nat, sbrk: Option<nat> | Inv(h) && SbrkOk(h, Total(size, align), sbrk)
        ensures PointerAligned(h, size, align, sbrk)
      {
        SmallAlignment(h, size, align, sbrk);
      }
    } else {
      LargeAlignment(align);
    }
  }

  // ---- the allocator in memory --------------------------------------------------------------

  const NULL := 0

  /** Following the headers from one address to another spells out bs. */
  ghost predicate Chain(from: nat, size: map<nat, nat>, next: map<nat, nat>, bs: seq<Block>, to: nat)
    decreases |bs|
  {
    if bs == [] then from == to
    else from == bs[0].addr && Header(size, next, bs[0]) && Chain(next[from], size, next, bs[1..], to)
  }

  ghost predicate Header(size: map<nat, nat>, next: map<nat, nat>, b: Block)
  {
    b.addr in size && size[b.addr] == b.size && b.addr in next
  }

  ghost predicate NotIn(a: nat, bs: seq<Block>) { forall i :: 0 <= i < |bs| ==> bs[i].addr != a }

  function AddrAt(bs: seq<Block>, i: nat, to: nat): nat { if i < |bs| then bs[i].addr else to }

  lemma {:induction false} ChainSplit(from: nat, size: map<nat, nat>, next: map<nat, nat>, bs: seq<Block>, to: nat,
                                      i: nat)
    requires Chain(from, size, next, bs, to) && i <= |bs|
    ensures Chain(from, size, next, bs[..i], AddrAt(bs, i, to)) && Chain(AddrAt(bs, i, to), size, next, bs[i..], to)
    decreases |bs|
  {
    if i == 0 {
      assert bs[0..] == bs;
    } else {
      ChainSplit(next[from], size, next, bs[1..], to, i - 1);
      assert bs[..i][1..] == bs[1..][..i - 1] && bs[i..] == bs[1..][i - 1..];
    }
  }

  lemma {:induction false} ChainJoin(from: nat, size: map<nat, nat>, next: map<nat, nat>, bs: seq<Block>, mid: nat,
                                     cs: seq<Block>, to: nat)
    requires Chain(from, size, next, bs, mid) && Chain(mid, size, next, cs, to)
    ensures Chain(from, size, next, bs + cs, to)
    decreases |bs|
  {
    if bs == [] {
      assert bs + cs == cs;
    } else {
      ChainJoin(next[from], size, next, bs[1..], mid, cs, to);
      assert (bs + cs)[1..] == bs[1..] + cs;
    }
  }

  /** A header written elsewhere leaves the chain alone. */
  lemma {:induction false} ChainFrame(from: nat, size: map<nat, nat>, next: map<nat, nat>, bs: seq<Block>, to: nat,
                                      a: nat, s: nat, n: nat)
    requires Chain(from, size, next, bs, to) && NotIn(a, bs)
    ensures Chain(from, size[a := s], next[a := n], bs, to)
    decreases |bs|
  {
    if bs != [] {
      assert bs[0].addr != a;
      ChainFrame(next[from], size, next, bs[1..], to, a, s, n);
    }
  }

  lemma ChainCons(size: map<nat, nat>, next: map<nat, nat>, b: Block, bs: seq<Block>, to: nat)
    requires Header(size, next, b) && Chain(next[b.addr], size, next, bs, to)
    ensures Chain(b.addr, size, next, [b] + bs, to)
  {
    assert ([b] + bs)[1..] == bs;
  }

  lemma NotInSlices(a: nat, bs: seq<Block>, i: nat)
    requires NotIn(a, bs) && i <= |bs|
    ensures NotIn(a, bs[..i]) && NotIn(a, bs[i..])
    ensures i < |bs| ==> NotIn(a, bs[i + 1..]) && a != bs[i].addr
  {}

  lemma ChainHead(from: nat, size: map<nat, nat>, next: map<nat, nat>, bs: seq<Block>, to: nat)
    requires Chain(from, size, next, bs, to)
    ensures from == AddrAt(bs, 0, to)
  {}

  /** The i-th block of a list, reached, leads to the next. */
  lemma ChainStep(cur: nat, size: map<nat, nat>, next: map<nat, nat>, bs: seq<Block>, to: nat, i: nat)
    requires i < |bs| && Chain(cur, size, next, bs[i..], to)
    ensures cur == bs[i].addr && Header(size, next, bs[i])
    ensures next[cur] == AddrAt(bs, i + 1, to) && Chain(next[cur], size, next, bs[i + 1..], to)
  {
    assert bs[i..][1..] == bs[i + 1..];
  }

  lemma ChainFirst(from: nat, size: map<nat, nat>, next: map<nat, nat>, bs: seq<Block>, to: nat)
    requires Chain(from, size, next, bs, to) && bs != []
    ensures from == bs[0].addr && Header(size, next, bs[0]) && Chain(next[from], size, next, bs[1..], to)
  {}

  ghost predicate Sized(size: map<nat, nat>, bs: seq<Block>)
  {
    forall i :: 0 <= i < |bs| ==> bs[i].addr in size && size[bs[i].addr] == bs[i].size
  }

  /** Every header is as it was except those of the block and of the free blocks. */
  ghost predicate SizesKept(size: map<nat, nat>, size': map<nat, nat>, block: nat, free: seq<Block>)
  {
    forall a :: a in size && a != block && NotIn(a, free) ==> a in size' && size'[a] == size[a]
  }

  lemma KeptThrough(size: map<nat, nat>, size1: map<nat, nat>, size2: map<nat, nat>, block: nat, free: seq<Block>,
                    i: nat)
    requires i <= |free| && SameSizesBut(size, size1, block) && SameSizesOff(size1, size2, free[..i])
    ensures SizesKept(size, size2, block, free)
  {
    hide NotIn;
    forall a | a in size && a != block && NotIn(a, free) ensures a in size2 && size2[a] == size[a] {
      NotInSlices(a, free, i);
    }
  }

  ghost predicate SameSizesOff(size: map<nat, nat>, size': map<nat, nat>, bs: seq<Block>)
  {
    forall a :: a in size && NotIn(a, bs) ==> a in size' && size'[a] == size[a]
  }

  ghost predicate SameSizesBut(size: map<nat, nat>, size': map<nat, nat>, b: nat)
  {
    forall a :: a in size && a != b ==> a in size' && size'[a] == size[a]
  }

  class Allocator {
    var head: nat
    var size: map<nat, nat>  // header words, by block address
    var next: map<nat, nat>
    ghost var heap: Heap

    ghost predicate Valid() reads this
    {
      Inv(heap) && Chain(head, size, next, heap.free, NULL) && Sized(size, heap.live)
    }

    constructor ()
      ensures Valid() && heap == EMPTY_HEAP
    {
      head, size, next, heap := NULL, map[], map[], EMPTY_HEAP;
      NoBytes(EMPTY_HEAP.free);
    }

    method FindPlace(block: nat, ghost free: seq<Block>) returns (prev: nat, cur: nat, ghost i: nat)
      requires Chain(head, size, next, free, NULL) && Coalesced(free)
      ensures i == Position(free, block) && cur == AddrAt(free, i, NULL) && (cur != NULL <==> i < |free|) &&
              prev == if i == 0 then NULL else free[i - 1].addr
      ensures Chain(head, size, next, free[..i], cur) && Chain(cur, size, next, free[i..], NULL)
    {
      prev, cur, i := NULL, head, 0;
      assert free[0..] == free;
      while cur != NULL && cur < block
        invariant 0 <= i <= |free| && cur == AddrAt(free, i, NULL) && prev == if i == 0 then NULL else free[i - 1].addr
        invariant Chain(cur, size, next, free[i..], NULL)
        invariant forall k :: 0 <= k < i ==> free[k].addr < block
        decreases |free| - i
      {
        assert free[i..][1..] == free[i + 1..];
        prev := cur;
        cur := next[cur];
        i := i + 1;
        assert cur == AddrAt(free, i, NULL);
      }
      ChainSplit(head, size, next, free, NULL, i);
    }

    /** The block, merged with the free block after it if they touch. */
    method AttachNext(block: nat, cur: nat, ghost before: seq<Block>, ghost free: seq<Block>, ghost i: nat)
      requires i <= |free| && cur == AddrAt(free, i, NULL) && (cur != NULL <==> i < |free|) && block in size &&
               NotIn(block, free)
      requires before == free[..i] && Chain(head, size, next, before, cur) && Chain(cur, size, next, free[i..], NULL)
      modifies this`size, this`next
      ensures Chain(head, size, next, before, cur)
      ensures Chain(block, size, next, MergeNext(free, i, Block(block, old(size[block]))), NULL)
      ensures SameSizesBut(old(size), size, block)
    {
      var blockEnd := block + size[block];
      ghost var b, after := Block(block, size[block]), free[i..];
      assert NotIn(block, before) && NotIn(block, after) &&
             (i < |free| ==> NotIn(block, free[i + 1..]) && block != free[i].addr) by { NotInSlices(block, free, i); }
      hide Chain, NotIn;
      if cur != NULL && blockEnd == cur {
        ChainFirst(cur, size, next, after, NULL);
        assert after[1..] == free[i + 1..] && after[0] == free[i];
        ChainFrame(head, size, next, before, cur, block, size[block] + size[cur], next[cur]);
        ChainFrame(next[cur], size, next, after[1..], NULL, block, size[block] + size[cur], next[cur]);
        size := size[block := size[block] + size[cur]];
        next := next[block := next[cur]];
        ChainCons(size, next, Merged(b, free[i]), free[i + 1..], NULL);
      } else {
        ChainFrame(head, size, next, before, cur, block, size[block], cur);
        ChainFrame(cur, size, next, after, NULL, block, size[block], cur);
        assert size == size[block := size[block]];
        next := next[block := cur];
        ChainCons(size, next, b, after, NULL);
      }
    }

    /** The free block before it, merged if they touch, and otherwise linked to it. */
    method AttachPrevious(block: nat, prev: nat, ghost before: seq<Block>, ghost cur: nat, ghost rest: seq<Block>)
      requires Chain(head, size, next, before, cur) && rest != [] && Chain(block, size, next, rest, NULL)
      requires prev == if before == [] then NULL else before[|before| - 1].addr
      requires forall k :: 0 <= k < |before| ==>
               0 < before[k].addr && NotIn(before[k].addr, rest) && NotIn(before[k].addr, before[..k])
      modifies this`head, this`size, this`next
      ensures Chain(head, size, next, MergePrevious(before, rest), NULL)
      ensures SameSizesOff(old(size), size, before)
    {
      hide Chain;
      if prev != NULL {
        ghost var n := |before| - 1;
        ChainSplit(head, size, next, before, cur, n);
        ChainFirst(prev, size, next, before[n..], cur);
        ChainFirst(block, size, next, rest, NULL);
        assert NotIn(prev, before[..n]) && NotIn(prev, rest);
        var prevEnd := prev + size[prev];
        if prevEnd == block {
          ghost var m := Merged(before[n], rest[0]);
          ChainFrame(head, size, next, before[..n], prev, prev, size[prev] + size[block], next[block]);
          ChainFrame(next[block], size, next, rest[1..], NULL, prev, size[prev] + size[block], next[block]);
          size := size[prev := size[prev] + size[block]];
          next := next[prev := next[block]];
          ChainCons(size, next, m, rest[1..], NULL);
          ChainJoin(head, size, next, before[..n], prev, [m] + rest[1..], NULL);
          assert before[..n] + ([m] + rest[1..]) == MergePrevious(before, rest);
        } else {
          ChainFrame(head, size, next, before[..n], prev, prev, size[prev], block);
          ChainFrame(block, size, next, rest, NULL, prev, size[prev], block);
          assert size == size[prev := size[prev]];
          next := next[prev := block];
          ChainCons(size, next, before[n], rest, NULL);
          ChainJoin(head, size, next, before[..n], prev, [before[n]] + rest, NULL);
          assert before[..n] + ([before[n]] + rest) == before + rest;
        }
      } else {
        head := block;
        assert before + rest == rest;
      }
    }

    method FreeListInsert(block: nat, ghost free: seq<Block>)
      requires Chain(head, size, next, free, NULL) && Coalesced(free) && block in size
      requires Proper(Block(block, size[block])) && ApartFrom(Block(block, size[block]), free)
      modifies this`head, this`size, this`next
      ensures Chain(head, size, next, Insert(free, Block(block, old(size[block]))), NULL)
      ensures SizesKept(old(size), size, block, free)
    {
      hide Chain, Position, MergeNext, MergePrevious, Coalesced, SizesKept, SameSizesBut, SameSizesOff, ApartFrom,
        Proper;
      ghost var b := Block(block, size[block]);
      var prev, cur, i := FindPlace(block, free);
      ghost var before, rest := free[..i], MergeNext(free, i, b);
      InsertPlaces(free, b, i);
      AttachNext(block, cur, before, free, i);
      ghost var size1 := size;
      AttachPrevious(block, prev, before, cur, rest);
      KeptThrough(old(size), size1, size, block, free, i);
    }

    method FindFit(total: nat, ghost free: seq<Block>) returns (prev: nat, cur: nat, ghost i: nat)
      requires Chain(head, size, next, free, NULL) && Coalesced(free)
      ensures i == FirstFit(free, total) && cur == AddrAt(free, i, NULL) && (cur != NULL <==> i < |free|)
      ensures prev == if i == 0 then NULL else free[i - 1].addr
      ensures Chain(head, size, next, free[..i], cur) && Chain(cur, size, next, free[i..], NULL)
    {
      prev, cur, i := NULL, head, 0;
      assert free[0..] == free;
      while cur != NULL
        invariant 0 <= i <= |free| && cur == AddrAt(free, i, NULL) && prev == if i == 0 then NULL else free[i - 1].addr
        invariant Chain(cur, size, next, free[i..], NULL)
        invariant forall k :: 0 <= k < i ==> free[k].size < total
        decreases |free| - i
      {
        if size[cur] >= total { break; }
        assert free[i..][1..] == free[i + 1..];
        prev := cur;
        cur := next[cur];
        i := i + 1;
        assert cur == AddrAt(free, i, NULL);
      }
      ChainSplit(head, size, next, free, NULL, i);
    }

    /** The end of a large enough block is carved off. */
    method Carve(cur: nat, total: nat, ghost i: nat) returns (block: nat)
      requires Valid() && Request(total) && i < |heap.free| && cur == heap.free[i].addr &&
               total + MIN_BLOCK <= heap.free[i].size
      requires Chain(head, size, next, heap.free[..i], cur) && Chain(cur, size, next, heap.free[i..], NULL)
      modifies this`size, this`next, this`heap
      ensures Valid() && heap == TakeFit(old(heap), i, total).heap &&
              Some(Block(block, total)) == TakeFit(old(heap), i, total).block
    {
      TakeFitKeeps(heap, i, total);
      CarveChain(head, size, next, heap, i, total);
      hide Chain, Inv, Sized;
      var remainder := size[cur] - total;
      size := size[cur := remainder];
      block := cur + remainder;
      size := size[block := total];
      next := next[block := NULL];
      heap := TakeFit(heap, i, total).heap;
    }

    /** A block too small to split is unlinked. */
    method Unlink(prev: nat, cur: nat, total: nat, ghost i: nat)
      requires Valid() && Request(total) && i < |heap.free| && cur == heap.free[i].addr
      requires total <= heap.free[i].size < total + MIN_BLOCK && prev == if i == 0 then NULL else heap.free[i - 1].addr
      requires Chain(head, size, next, heap.free[..i], cur) && Chain(cur, size, next, heap.free[i..], NULL)
      modifies this`head, this`next, this`heap
      ensures Valid() && heap == TakeFit(old(heap), i, total).heap &&
              TakeFit(old(heap), i, total).block == Some(old(heap.free[i]))
    {
      hide Chain, Inv, Sized;
      TakeFitKeeps(heap, i, total);
      UnlinkHeap(head, size, next, heap, i, total);
      if prev == NULL {
        head := next[cur];
      } else {
        next := next[prev := next[cur]];
      }
      next := next[cur := NULL];
      heap := TakeFit(heap, i, total).heap;
    }

    /** The end of a fresh region goes on the free list, and the front is cut to size. */
    method KeepRest(base: nat, total: nat)
      requires Inv(heap) && Request(total) && SbrkOk(heap, total, Some(base)) && Growth(total) - total >= MIN_BLOCK
      requires Chain(head, size, next, heap.free, NULL) && Sized(size, heap.live)
      modifies this`head, this`size, this`next
      ensures Chain(head, size, next, TakeNew(heap, base, total).heap.free, NULL) && Sized(size, heap.live)
      ensures base in size && size[base] == total
    {
      hide Chain, Inv, Insert, Coalesced, Sized, SizesKept, NotIn, SbrkOk, Growth, ApartFrom, Proper, TakeNew;
      var grow := Growth(total);
      var rest := base + total;
      ghost var h := heap;
      RestPlace(head, size, next, h, base, total);
      RestFree(h, base, total);
      size := size[rest := grow - total];
      next := next[rest := NULL];
      ghost var size1 := size;
      FreeListInsert(rest, h.free);
      SizedSame(size1, size, h.live, rest, h.free);
      RestHeaders(head, size, next, h, base, total);
      size := size[base := total];
    }

    /** A fresh region: the front is handed out and the rest, if worth keeping, is freed. */
    method Grow(base: nat, total: nat) returns (block: nat)
      requires Valid() && Request(total) && SbrkOk(heap, total, Some(base))
      modifies this
      ensures Valid() && heap == TakeNew(old(heap), base, total).heap
      ensures TakeNew(old(heap), base, total).block.Some? && block == TakeNew(old(heap), base, total).block.value.addr
    {
      hide Chain, Inv, Insert, Sized, SbrkOk;
      var grow := Growth(total);
      block := base;
      ghost var h := heap;
      NewHeader(head, size, next, h, base, total);
      TakeNewKeeps(h, base, total);
      size := size[block := grow];
      next := next[block := NULL];
      if grow > total && grow - total >= MIN_BLOCK {
        KeepRest(base, total);
      }
      heap := TakeNew(h, base, total).heap;
      SizedAppend(size, h.live, TakeNew(h, base, total).block.value);
    }

    /** The whole of alloc: a null pointer exactly when nothing fits and sbrk failed. */
    method Allocate(payload: nat, align: nat, sbrk: Option<nat>) returns (ptr: nat)
      requires Valid() && SbrkOk(heap, Total(payload, align), sbrk)
      modifies this
      ensures Valid() && heap == Alloc(old(heap), Total(payload, align), sbrk).heap
      ensures match Alloc(old(heap), Total(payload, align), sbrk).block
              case Some(b) => ptr == b.addr + HEADER_SIZE
              case None => ptr == NULL
    {
      var total := Total(payload, align);
      assert Coalesced(heap.free);
      var prev, cur, i := FindFit(total, heap.free);
      hide Chain, Inv, Insert, Coalesced, Sized, SbrkOk, Total;
      if cur != NULL {
        ChainFirst(cur, size, next, heap.free[i..], NULL);
        if size[cur] - total >= MIN_BLOCK {
          var block := Carve(cur, total, i);
          return block + HEADER_SIZE;
        } else {
          Unlink(prev, cur, total, i);
          return cur + HEADER_SIZE;
        }
      }
      if sbrk.None? { return NULL; }
      var block := Grow(sbrk.value, total);
      return block + HEADER_SIZE;
    }

    /** dealloc of the k-th live block, by its pointer; a null pointer is ignored. */
    method Deallocate(ptr: nat, ghost k: nat)
      requires Valid() && (ptr != NULL ==> k < |heap.live| && ptr == heap.live[k].addr + HEADER_SIZE)
      modifies this
      ensures Valid() && heap == if ptr == NULL then old(heap) else Free(old(heap), k)
    {
      if ptr == NULL { return; }
      var block := ptr - HEADER_SIZE;
      ghost var h, size0 := heap, size;
      FreePlace(h, k);
      FreeKeeps(h, k);
      hide Chain, Inv, Insert, NotIn;
      assert size[block] == h.live[k].size;
      FreeListInsert(block, h.free);
      SizedSame(size0, size, h.live[..k] + h.live[k + 1..], block, h.free);
      heap := Free(h, k);
    }
  }

  lemma FreePlace(h: Heap, k: nat)
    requires Inv(h) && k < |h.live|
    ensures Coalesced(h.free) && Proper(h.live[k]) && ApartFrom(h.live[k], h.free)
    ensures var rest := h.live[..k] + h.live[k + 1..];
            NotIn(h.live[k].addr, rest) && forall j :: 0 <= j < |rest| ==> NotIn(rest[j].addr, h.free)
  {
    RemoveLive(h.live, h.free, k);
    LiveNotFree(h);
    ApartNotIn(h.live[k], h.live[..k] + h.live[k + 1..]);
  }

  lemma {:induction false} ChainResize(from: nat, size: map<nat, nat>, next: map<nat, nat>, bs: seq<Block>, to: nat,
                                       a: nat, s: nat)
    requires Chain(from, size, next, bs, to) && NotIn(a, bs)
    ensures Chain(from, size[a := s], next, bs, to)
    decreases |bs|
  {
    if bs != [] {
      assert bs[0].addr != a;
      ChainResize(next[from], size, next, bs[1..], to, a, s);
    }
  }

  /** Shortening the block handed out, once the rest of its region is on the free list. */
  lemma RestHeaders(head: nat, size: map<nat, nat>, next: map<nat, nat>, h: Heap, base: nat, total: nat)
    requires Inv(h) && Request(total) && SbrkOk(h, total, Some(base)) && Growth(total) - total >= MIN_BLOCK
    requires Chain(head, size, next, TakeNew(h, base, total).heap.free, NULL) && Sized(size, h.live)
    ensures Chain(head, size[base := total], next, TakeNew(h, base, total).heap.free, NULL) &&
            Sized(size[base := total], h.live)
  {
    var rest, n := Block(base + total, Growth(total) - total), Block(base, total);
    NewProper(base, total);
    Elsewhere(h, base, total, rest);
    Elsewhere(h, base, total, n);
    InsertApart(h.free, rest, n);
    InsertKeeps(h.free, rest);
    ApartNotIn(n, Insert(h.free, rest));
    hide Insert, Inv;
    ChainResize(head, size, next, Insert(h.free, rest), NULL, base, total);
    SizedFrame(size, h.live, base, total);
  }

  lemma TakeNewKeeps(h: Heap, base: nat, total: nat)
    requires Inv(h) && Request(total) && SbrkOk(h, total, Some(base))
    ensures Inv(TakeNew(h, base, total).heap)
  {
    TakeNewDisjoint(h, base, total);
    TakeNewAccounted(h, base, total);
  }

  lemma ApartNotIn(c: Block, bs: seq<Block>)
    requires ApartFrom(c, bs) && 0 < c.size && forall k :: 0 <= k < |bs| ==> Proper(bs[k])
    ensures NotIn(c.addr, bs)
  {
    forall k | 0 <= k < |bs| ensures bs[k].addr != c.addr { assert Apart(c, bs[k]); }
  }

  lemma LiveNotFree(h: Heap)
    requires Inv(h)
    ensures forall j :: 0 <= j < |h.live| ==> NotIn(h.live[j].addr, h.free)
  {
    forall j | 0 <= j < |h.live| ensures NotIn(h.live[j].addr, h.free) {
      assert forall k :: 0 <= k < |h.free| ==> Apart(h.free[k], h.live[j]);
      ApartNotIn(h.live[j], h.free);
    }
  }

  /** Headers written into a fresh region disturb neither list. */
  lemma NewHeader(head: nat, size: map<nat, nat>, next: map<nat, nat>, h: Heap, base: nat, total: nat)
    requires Inv(h) && Request(total) && SbrkOk(h, total, Some(base)) && Chain(head, size, next, h.free, NULL) &&
             Sized(size, h.live)
    ensures Chain(head, size[base := Growth(total)], next[base := NULL], h.free, NULL) &&
            Sized(size[base := Growth(total)], h.live)
  {
    var grow := Growth(total);
    NewProper(base, total);
    Elsewhere(h, base, total, Block(base, grow));
    ChainFrame(head, size, next, h.free, NULL, base, grow, NULL);
    SizedFrame(size, h.live, base, grow);
  }

  /** The free list after a fresh region is cut. */
  lemma RestFree(h: Heap, base: nat, total: nat)
    requires Growth(total) - total >= MIN_BLOCK
    ensures TakeNew(h, base, total).heap.free == Insert(h.free, Block(base + total, Growth(total) - total))
  {
    hide Insert, Growth;
  }

  lemma RestPlace(head: nat, size: map<nat, nat>, next: map<nat, nat>, h: Heap, base: nat, total: nat)
    requires Inv(h) && Request(total) && SbrkOk(h, total, Some(base)) && Growth(total) - total >= MIN_BLOCK
    requires Chain(head, size, next, h.free, NULL) && Sized(size, h.live)
    ensures var rest := Block(base + total, Growth(total) - total);
            && Chain(head, size[rest.addr := rest.size], next[rest.addr := NULL], h.free, NULL)
            && Sized(size[rest.addr := rest.size], h.live)
            && Proper(rest) && ApartFrom(rest, h.free) && NotIn(rest.addr, h.live) && Coalesced(h.free)
    ensures forall j :: 0 <= j < |h.live| ==> NotIn(h.live[j].addr, h.free)
  {
    var rest := Block(base + total, Growth(total) - total);
    NewProper(base, total);
    Elsewhere(h, base, total, rest);
    LiveNotFree(h);
    ChainFrame(head, size, next, h.free, NULL, rest.addr, rest.size, NULL);
    SizedFrame(size, h.live, rest.addr, rest.size);
  }

  lemma Elsewhere(h: Heap, base: nat, total: nat, b: Block)
    requires Inv(h) && SbrkOk(h, total, Some(base)) && base <= b.addr && End(b) <= base + Growth(total) && Proper(b)
    ensures NotIn(b.addr, h.free) && NotIn(b.addr, h.live) && ApartFrom(b, h.free)
  {
    NewApart(h, base, total, b);
    ApartNotIn(b, h.free);
    ApartNotIn(b, h.live);
  }

  lemma SizedSame(size: map<nat, nat>, size': map<nat, nat>, live: seq<Block>, rest: nat, free: seq<Block>)
    requires Sized(size, live) && NotIn(rest, live) && forall j :: 0 <= j < |live| ==> NotIn(live[j].addr, free)
    requires SizesKept(size, size', rest, free)
    ensures Sized(size', live)
  {
    forall j | 0 <= j < |live| ensures live[j].addr in size' && size'[live[j].addr] == live[j].size {
      assert live[j].addr in size && NotIn(live[j].addr, free);
    }
  }

  lemma UnlinkHeap(head: nat, size: map<nat, nat>, next: map<nat, nat>, h: Heap, i: nat, total: nat)
    requires Inv(h) && Request(total) && i < |h.free| && total <= h.free[i].size < total + MIN_BLOCK &&
             Sized(size, h.live)
    requires Chain(head, size, next, h.free[..i], h.free[i].addr) &&
             Chain(h.free[i].addr, size, next, h.free[i..], NULL)
    ensures h.free[i].addr in next && Sized(size, TakeFit(h, i, total).heap.live)
    ensures var r, cur := TakeFit(h, i, total).heap.free, h.free[i].addr;
            if i == 0 then Chain(next[cur], size, next[cur := NULL], r, NULL)
            else h.free[i - 1].addr != NULL && Chain(head, size, next[h.free[i - 1].addr := next[cur]][cur := NULL],
                                                     r, NULL)
  {
    ChainFirst(h.free[i].addr, size, next, h.free[i..], NULL);
    assert h.free[i..][1..] == h.free[i + 1..];
    InsideBlock(h, i, h.free[i].addr);
    Slices(h.free, i);
    SizedAppend(size, h.live, h.free[i]);
    Ascending(h.free, i);
    assert i > 0 ==> Proper(h.free[i - 1]);
    hide Chain, Inv, Sized, NotIn, Coalesced, Proper;
    UnlinkChain(head, size, next, h.free[..i], h.free[i], h.free[i + 1..]);
  }

  lemma Ascending(free: seq<Block>, i: nat)
    requires Coalesced(free) && i < |free|
    ensures forall k :: 0 <= k < i ==> NotIn(free[..i][k].addr, free[i + 1..])
  {}

  lemma UnlinkChain(head: nat, size: map<nat, nat>, next: map<nat, nat>, before: seq<Block>, b: Block,
                    after: seq<Block>)
    requires Chain(head, size, next, before, b.addr) && Header(size, next, b) &&
             Chain(next[b.addr], size, next, after, NULL)
    requires NotIn(b.addr, before) && NotIn(b.addr, after) && Coalesced(before) &&
             (forall k :: 0 <= k < |before| ==> NotIn(before[k].addr, after))
    ensures before == [] ==> Chain(next[b.addr], size, next[b.addr := NULL], before + after, NULL)
    ensures before != [] ==> Chain(head, size, next[before[|before| - 1].addr := next[b.addr]][b.addr := NULL],
                                   before + after, NULL)
  {
    var cur := b.addr;
    assert size == size[cur := size[cur]];
    if before == [] {
      ChainFrame(next[cur], size, next, after, NULL, cur, size[cur], NULL);
      assert before + after == after;
    } else {
      var n := |before| - 1;
      var p := before[n];
      ChainSplit(head, size, next, before, cur, n);
      ChainFirst(p.addr, size, next, before[n..], cur);
      assert NotIn(p.addr, before[..n]);
      NotInSlices(cur, before, n);
      hide Chain, NotIn, Coalesced;
      assert size == size[p.addr := size[p.addr]][cur := size[cur]];
      TwoWrites(head, size, next, before[..n], p.addr, p.addr, p.size, next[cur], cur, size[cur]);
      TwoWrites(next[cur], size, next, after, NULL, p.addr, p.size, next[cur], cur, size[cur]);
      var next' := next[p.addr := next[cur]][cur := NULL];
      ChainCons(size, next', p, after, NULL);
      ChainJoin(head, size, next', before[..n], p.addr, [p] + after, NULL);
      assert before[..n] + ([p] + after) == before + after;
    }
  }

  lemma CarveChain(head: nat, size: map<nat, nat>, next: map<nat, nat>, h: Heap, i: nat, total: nat)
    requires Inv(h) && Request(total) && i < |h.free| && total + MIN_BLOCK <= h.free[i].size && Sized(size, h.live)
    requires Chain(head, size, next, h.free[..i], h.free[i].addr) &&
             Chain(h.free[i].addr, size, next, h.free[i..], NULL)
    ensures var cur, remainder := h.free[i].addr, h.free[i].size - total;
            var size', next' := size[cur := remainder][cur + remainder := total], next[cur + remainder := NULL];
            && cur in size && size[cur] == h.free[i].size
            && Chain(head, size', next', TakeFit(h, i, total).heap.free, NULL) &&
                Sized(size', TakeFit(h, i, total).heap.live)
  {
    hide Chain, Inv, NotIn, Sized, Proper;
    var cur, remainder := h.free[i].addr, h.free[i].size - total;
    var block := cur + remainder;
    var before, after := h.free[..i], h.free[i + 1..];
    ChainFirst(cur, size, next, h.free[i..], NULL);
    assert h.free[i..][1..] == after;
    InsideBlock(h, i, cur);
    InsideBlock(h, i, block);
    SizedFrame(size, h.live, cur, remainder);
    SizedFrame(size[cur := remainder], h.live, block, total);
    SizedAppend(size[cur := remainder][block := total], h.live, Block(block, total));
    ResizeChain(head, size, next, before, h.free[i], after, remainder, block, total);
  }

  /** One block of a chain shrunk, and a header written outside the chain. */
  lemma ResizeChain(head: nat, size: map<nat, nat>, next: map<nat, nat>, before: seq<Block>, b: Block,
                    after: seq<Block>,
                    r: nat, block: nat, total: nat)
    requires Chain(head, size, next, before, b.addr) && Header(size, next, b) &&
             Chain(next[b.addr], size, next, after, NULL)
    requires NotIn(b.addr, before) && NotIn(b.addr, after) && NotIn(block, before) && NotIn(block, after) &&
             block != b.addr
    ensures Chain(head, size[b.addr := r][block := total], next[block := NULL], before + [Block(b.addr, r)] + after,
                  NULL)
  {
    hide Chain, NotIn;
    var cur, kept := b.addr, Block(b.addr, r);
    assert next == next[cur := next[cur]];
    TwoWrites(head, size, next, before, cur, cur, r, next[cur], block, total);
    TwoWrites(next[cur], size, next, after, NULL, cur, r, next[cur], block, total);
    var size', next' := size[cur := r][block := total], next[block := NULL];
    ChainCons(size', next', kept, after, NULL);
    ChainJoin(head, size', next', before, cur, [kept] + after, NULL);
    assert before + ([kept] + after) == before + [kept] + after;
  }

  lemma SizedFrame(size: map<nat, nat>, bs: seq<Block>, a: nat, s: nat)
    requires Sized(size, bs) && NotIn(a, bs)
    ensures Sized(size[a := s], bs)
  {}

  lemma SizedAppend(size: map<nat, nat>, bs: seq<Block>, b: Block)
    requires Sized(size, bs) && b.addr in size && size[b.addr] == b.size
    ensures Sized(size, bs + [b])
  {}

  lemma TwoWrites(from: nat, size: map<nat, nat>, next: map<nat, nat>, bs: seq<Block>, to: nat,
                  a: nat, s: nat, n: nat, b: nat, t: nat)
    requires Chain(from, size, next, bs, to) && NotIn(a, bs) && NotIn(b, bs)
    ensures Chain(from, size[a := s][b := t], next[a := n][b := NULL], bs, to)
  {
    ChainFrame(from, size, next, bs, to, a, s, n);
    ChainFrame(from, size[a := s], next[a := n], bs, to, b, t, NULL);
  }

  lemma TakeFitKeeps(h: Heap, i: nat, total: nat)
    requires Inv(h) && Request(total) && i < |h.free| && total <= h.free[i].size
    ensures Inv(TakeFit(h, i, total).heap)
  {
    TakeFitDisjoint(h, i, total);
    TakeFitAccounted(h, i, total);
  }

  /** An address inside a free block heads no other free block and no live block. */
  lemma InsideBlock(h: Heap, i: nat, a: nat)
    requires Inv(h) && i < |h.free| && Within(h.free[i], a)
    ensures NotIn(a, h.free[..i]) && NotIn(a, h.free[i + 1..]) && NotIn(a, h.live)
  {
    forall j | 0 <= j < |h.live| ensures h.live[j].addr != a {
      assert Apart(h.free[i], h.live[j]) && Proper(h.live[j]);
    }
    forall k | 0 <= k < |h.free| && k != i ensures h.free[k].addr != a {
      assert Proper(h.free[k]);
    }
  }

  /** The addresses on either side of the insertion point are all different. */
  lemma InsertPlaces(free: seq<Block>, b: Block, i: nat)
    requires Coalesced(free) && Proper(b) && ApartFrom(b, free) && i == Position(free, b.addr)
    ensures NotIn(b.addr, free)
    ensures var before, rest := free[..i], MergeNext(free, i, b);
            forall k :: 0 <= k < |before| ==>
                0 < before[k].addr && NotIn(before[k].addr, rest) && NotIn(before[k].addr, before[..k])
  {
    forall k | 0 <= k < |free| ensures free[k].addr != b.addr {
      assert Apart(b, free[k]) && Proper(free[k]);
    }
    MergeNextShape(free, i, b);
    hide MergeNext;
    var before, rest := free[..i], MergeNext(free, i, b);
    forall k | 0 <= k < i ensures 0 < before[k].addr && NotIn(before[k].addr, rest) &&
        NotIn(before[k].addr, before[..k]) {
      assert Proper(free[k]);
      assert forall j :: 0 <= j < |rest| ==> rest[0].addr <= rest[j].addr;
    }
  }
}
