/**
 The kernel heap for small requests: first fit with padding for alignment, blocks given back to
 the front of the list and never merged.
 */
module KernelHeap {
  import opened NumberTheory
  import opened Options
  import opened UserHeap

  const PGSIZE := 4096
  const FREE_BLOCK := 8    // size of a free block's header
  const HEADER_ALIGN := 4

  /** val rounded up to a multiple of align. */
  function AlignUp(val: nat, align: nat): (r: nat)
    requires 0 < align
  {
    (val + align - 1) / align * align
  }

  lemma AlignUpIs(val: nat, align: nat)
    requires 0 < align
    ensures val <= AlignUp(val, align) < val + align && Multiple(AlignUp(val, align), align)
  {
    var x := val + align - 1;
    var q, r := x / align, x % align;
    assert x == align * q + r;
    assert q * align == align * q == align * q + 0;
    RemainderUnique(align * q, align, q, 0);
  }

  lemma MultiplesAdd(a: nat, b: nat, m: nat)
    requires 0 < m && Multiple(a, m) && Multiple(b, m)
    ensures Multiple(a + b, m)
  {
    var p, q := a / m, b / m;
    assert a == m * p && b == m * q;
    assert a + b == m * (p + q);
    RemainderUnique(a + b, m, p + q, 0);
  }

  lemma MultipleOfMultiple(a: nat, m: nat, k: nat)
    requires 0 < k && 0 < m && Multiple(a, m) && Multiple(m, k)
    ensures Multiple(a, k)
  {
    var p, q := a / m, m / k;
    assert a == m * p && m == k * q;
    assert k * q * p == k * (q * p);
    RemainderUnique(a, k, q * p, 0);
  }

  /** A small request: its size and alignment as alloc and dealloc both compute them. */
  datatype Request = Request(size: nat, align: nat)

  function RequestFor(size: nat, align: nat): Request
  {
    var a := Max(align, HEADER_ALIGN);
    Request(AlignUp(Max(size, FREE_BLOCK), a), a)
  }

  predicate Good(r: Request)
  {
    HEADER_ALIGN <= r.align && Multiple(r.align, HEADER_ALIGN) && FREE_BLOCK <= r.size && Multiple(r.size, r.align)
  }

  lemma RequestIsGood(size: nat, align: nat)
    requires PowerOfTwo(align)
    ensures Good(RequestFor(size, align)) && size <= RequestFor(size, align).size &&
            align <= RequestFor(size, align).align
    ensures Multiple(RequestFor(size, align).align, align)
  {
    hide AlignUp, PowerOfTwo;
    PowerShape(align);
    var a := Max(align, HEADER_ALIGN);
    AlignUpIs(Max(size, FREE_BLOCK), a);
    AlignmentIs(align);
  }

  lemma AlignmentIs(align: nat)
    requires align == 1 || align == 2 || align == 4 || align == 8 || (align > 0 && align % 16 == 0)
    ensures var a := Max(align, HEADER_ALIGN); Multiple(a, align) && Multiple(a, HEADER_ALIGN)
  {
    if align > 8 {
      RemainderUnique(align, align, 1, 0);
      assert align == 4 * (4 * (align / 16));
      RemainderUnique(align, 4, 4 * (align / 16), 0);
    }
  }

  // ---- the heap as a value ----------------------------------------------------------------------------

  datatype KHeap = KHeap(lo: nat, hi: nat, free: seq<Block>, live: seq<Block>)

  predicate Usable(b: Block, lo: nat, hi: nat)
  {
    0 < lo <= b.addr && End(b) <= hi && FREE_BLOCK <= b.size && Multiple(b.addr, HEADER_ALIGN)
  }

  ghost predicate AllUsable(bs: seq<Block>, lo: nat, hi: nat) { forall i :: 0 <= i < |bs| ==> Usable(bs[i], lo, hi) }

  ghost predicate Pairwise(bs: seq<Block>) { forall i, j :: 0 <= i < j < |bs| ==> Apart(bs[i], bs[j]) }

  /** Everything lies in the heap, and no two blocks, free or live, overlap. */
  ghost predicate Sound(h: KHeap)
  {
    && AllUsable(h.free, h.lo, h.hi) && AllUsable(h.live, h.lo, h.hi)
    && Pairwise(h.free) && Pairwise(h.live) && AllApart(h.free, h.live)
  }

  function Initial(lo: nat, size: nat): KHeap { KHeap(lo, lo + size, [Block(lo, size)], []) }

  /** Bytes of block b used up before and for the request. */
  function Needed(b: Block, r: Request): (n: nat)
    requires 0 < r.align
  {
    AlignUpIs(b.addr, r.align);
    r.size + (AlignUp(b.addr, r.align) - b.addr)
  }

  function Fit(free: seq<Block>, r: Request): (i: nat)
    requires 0 < r.align
    ensures i <= |free| && (i < |free| ==> Needed(free[i], r) <= free[i].size)
    ensures forall j :: 0 <= j < i ==> free[j].size < Needed(free[j], r)
  {
    if free == [] || Needed(free[0], r) <= free[0].size then 0 else 1 + Fit(free[1..], r)
  }

  /** What is left of block b, if it can hold a header. */
  function Leftover(b: Block, r: Request): seq<Block>
    requires 0 < r.align && Needed(b, r) <= b.size
  {
    var rest := b.size - Needed(b, r);
    if rest >= FREE_BLOCK then [Block(b.addr + Needed(b, r), rest)] else []
  }

  function Handed(b: Block, r: Request): Block
    requires 0 < r.align
  {
    Block(AlignUp(b.addr, r.align), r.size)
  }

  datatype KAllocation = KAllocation(heap: KHeap, block: Option<Block>)

  function KAlloc(h: KHeap, r: Request): KAllocation
    requires 0 < r.align
  {
    var i := Fit(h.free, r);
    if i < |h.free| then
      var b := h.free[i];
      KAllocation(h.(free := h.free[..i] + Leftover(b, r) + h.free[i + 1..], live := h.live + [Handed(b, r)]),
                  Some(Handed(b, r)))
    else KAllocation(h, None)
  }

  function KFree(h: KHeap, k: nat): KHeap
    requires k < |h.live|
  {
    h.(free := [h.live[k]] + h.free, live := h.live[..k] + h.live[k + 1..])
  }

  /** Both pieces cut from a block lie inside it and apart. */
  lemma Cut(b: Block, r: Request, lo: nat, hi: nat)
    requires Good(r) && Usable(b, lo, hi) && Needed(b, r) <= b.size
    ensures var n := Handed(b, r);
            && Usable(n, lo, hi) && Multiple(n.addr, r.align) && b.addr <= n.addr && End(n) <= End(b)
            && forall x :: x in Leftover(b, r) ==>
                Usable(x, lo, hi) && Apart(x, n) && b.addr <= x.addr && End(x) <= End(b)
  {
    hide Multiple, AlignUp;
    AlignUpIs(b.addr, r.align);
    var n := Handed(b, r);
    MultipleOfMultiple(n.addr, r.align, HEADER_ALIGN);
    MultiplesAdd(n.addr, r.size, r.align);
    MultipleOfMultiple(n.addr + r.size, r.align, HEADER_ALIGN);
  }

  /** free with block i replaced by at most one block inside it. */
  function Replaced(free: seq<Block>, i: nat, l: seq<Block>): seq<Block>
    requires i < |free|
  {
    free[..i] + l + free[i + 1..]
  }

  ghost predicate Shrinks(b: Block, l: seq<Block>)
  {
    |l| <= 1 && forall k :: 0 <= k < |l| ==> b.addr <= l[k].addr && End(l[k]) <= End(b) && 0 < l[k].size
  }

  /** Where each block of the new list comes from. */
  function Origin(i: nat, n: nat, j: nat): nat { if j < i then j else if n == 1 then j else j + 1 }

  lemma ReplacedAt(free: seq<Block>, i: nat, l: seq<Block>, j: nat)
    requires i < |free| && Shrinks(free[i], l) && j < |Replaced(free, i, l)|
    ensures var o := Origin(i, |l|, j);
            o < |free| && (if o == i && |l| == 1 then Replaced(free, i, l)[j] == l[0]
                           else Replaced(free, i, l)[j] == free[o])
    ensures forall c :: Apart(free[Origin(i, |l|, j)], c) ==> Apart(Replaced(free, i, l)[j], c)
  {}

  lemma ReplacedApart(free: seq<Block>, i: nat, l: seq<Block>, cs: seq<Block>)
    requires i < |free| && Shrinks(free[i], l) && AllApart(free, cs)
    ensures AllApart(Replaced(free, i, l), cs)
  {
    forall j, k | 0 <= j < |Replaced(free, i, l)| && 0 <= k < |cs| ensures Apart(Replaced(free, i, l)[j], cs[k]) {
      ReplacedAt(free, i, l, j);
    }
  }

  lemma ReplacedPairwise(free: seq<Block>, i: nat, l: seq<Block>)
    requires i < |free| && Shrinks(free[i], l) && Pairwise(free)
    ensures Pairwise(Replaced(free, i, l))
  {
    var new' := Replaced(free, i, l);
    forall j, k | 0 <= j < k < |new'| ensures Apart(new'[j], new'[k]) {
      hide Replaced;
      ReplacedAt(free, i, l, j);
      ReplacedAt(free, i, l, k);
      var a, b := Origin(i, |l|, j), Origin(i, |l|, k);
      assert Apart(free[a], free[b]);
      assert Apart(new'[j], free[b]);
      assert Apart(free[b], new'[j]);
      assert Apart(new'[k], new'[j]);
    }
  }

  /** A live block cut from free block i is apart from every block left. */
  lemma HandedApart(h: KHeap, i: nat, l: seq<Block>, n: Block)
    requires Sound(h) && i < |h.free| && Shrinks(h.free[i], l) && Shrinks(h.free[i], [n]) && forall x :: x in l ==>
             Apart(x, n)
    ensures forall j :: 0 <= j < |h.live| ==> Apart(h.live[j], n)
    ensures forall j :: 0 <= j < |Replaced(h.free, i, l)| ==> Apart(Replaced(h.free, i, l)[j], n)
  {
    var b := h.free[i];
    assert [n][0] == n;
    forall j | 0 <= j < |h.live| ensures Apart(h.live[j], n) { assert Apart(b, h.live[j]); }
    forall j | 0 <= j < |Replaced(h.free, i, l)| ensures Apart(Replaced(h.free, i, l)[j], n) {
      ReplacedAt(h.free, i, l, j);
      var o := Origin(i, |l|, j);
      if o != i { PairApart(h.free, o, i); }
    }
  }

  lemma CutShrinks(b: Block, r: Request, lo: nat, hi: nat)
    requires Good(r) && Usable(b, lo, hi) && Needed(b, r) <= b.size
    ensures Shrinks(b, Leftover(b, r)) && Shrinks(b, [Handed(b, r)])
    ensures AllUsable(Leftover(b, r), lo, hi) && Usable(Handed(b, r), lo, hi) && forall x :: x in Leftover(b, r) ==>
            Apart(x, Handed(b, r))
  {
    Cut(b, r, lo, hi);
    hide Handed, Needed, Multiple;
    forall k | 0 <= k < |Leftover(b, r)| ensures Usable(Leftover(b, r)[k], lo, hi) {
      assert Leftover(b, r)[k] in Leftover(b, r);
    }
  }

  /** Every small allocation keeps the heap sound, and returns an aligned block of the size asked for
      that lies in the heap and overlaps no other block; it fails only when no free block fits. */
  lemma KAllocKeeps(h: KHeap, r: Request)
    requires Sound(h) && Good(r)
    ensures Sound(KAlloc(h, r).heap)
    ensures KAlloc(h, r).block.Some? ==>
              var b := KAlloc(h, r).block.value;
              Multiple(b.addr, r.align) && b.size == r.size && KAlloc(h, r).heap.live == h.live + [b]
    ensures KAlloc(h, r).block.None? ==> KAlloc(h, r).heap == h && forall j :: 0 <= j < |h.free| ==>
            h.free[j].size < Needed(h.free[j], r)
  {
    var i := Fit(h.free, r);
    if i < |h.free| {
      var b := h.free[i];
      var l, n := Leftover(b, r), Handed(b, r);
      Cut(b, r, h.lo, h.hi);
      CutShrinks(b, r, h.lo, h.hi);
      hide Leftover, Handed, Fit, Needed, Usable, Multiple;
      ReplacedPairwise(h.free, i, l);
      ReplacedApart(h.free, i, l, h.live);
      HandedApart(h, i, l, n);
      assert AllUsable(Replaced(h.free, i, l), h.lo, h.hi);
    }
  }

  lemma KFreeKeeps(h: KHeap, k: nat)
    requires Sound(h) && k < |h.live|
    ensures Sound(KFree(h, k))
  {
    hide Usable;
    var b, rest := h.live[k], h.live[..k] + h.live[k + 1..];
    forall j | 0 <= j < |rest| ensures rest[j] in h.live && Apart(b, rest[j]) {
      assert rest[j] == h.live[if j < k then j else j + 1];
    }
  }

  // ---- what becomes of the bytes ---------------------------------------------------------------------------

  /** A block given back can be had again at once: the next request that fits it gets it. */
  lemma FreedIsReused(h: KHeap, k: nat, r: Request)
    requires Sound(h) && Good(r) && k < |h.live| && r.size <= h.live[k].size && Multiple(h.live[k].addr, r.align)
    ensures KAlloc(KFree(h, k), r).block == Some(Block(h.live[k].addr, r.size))
  {
    AlreadyAligned(h.live[k].addr, r.align);
    hide AlignUp, Multiple, Sound;
  }

  lemma AlreadyAligned(a: nat, align: nat)
    requires 0 < align && Multiple(a, align)
    ensures AlignUp(a, align) == a
  {
    var q := a / align;
    assert a == align * q && a + align - 1 == align * q + (align - 1);
    RemainderUnique(a + align - 1, align, q, align - 1);
    assert q * align == align * q;
  }

  /** dealloc: the bytes free afterwards are those before and the block's. */
  lemma FreeAddsBytes(h: KHeap, k: nat)
    requires k < |h.live|
    ensures Sum(KFree(h, k).free) == Sum(h.free) + h.live[k].size
    ensures forall a :: Covered(KFree(h, k).free, a) <==> Covered(h.free, a) || Within(h.live[k], a)
    ensures Sum(KFree(h, k).live) == Sum(h.live) - h.live[k].size
  {
    hide Sum, Covered, Within;
    Concat([h.live[k]], h.free);
    Single(h.live[k]);
    Split(h.live, k);
    Concat(h.live[..k], h.live[k + 1..]);
  }

  /** Bytes an allocation takes off the list beyond those it hands out. */
  function Lost(b: Block, r: Request): (n: nat)
    requires 0 < r.align && Needed(b, r) <= b.size
  {
    var rest := b.size - Needed(b, r);
    Needed(b, r) - r.size + if rest < FREE_BLOCK then rest else 0
  }

  lemma LostIsLittle(b: Block, r: Request)
    requires 0 < r.align && Needed(b, r) <= b.size
    ensures Lost(b, r) < r.align + FREE_BLOCK - 1
  {
    AlignUpIs(b.addr, r.align);
  }

  /** alloc: what leaves the list are the block handed out, the padding in front of it and at most what
      cannot hold a header after it; every other free byte stays free. */
  lemma AllocTakesBytes(h: KHeap, r: Request)
    requires Good(r) && KAlloc(h, r).block.Some?
    ensures var i := Fit(h.free, r);
            && i < |h.free| && Needed(h.free[i], r) <= h.free[i].size
            && Sum(KAlloc(h, r).heap.free) + r.size + Lost(h.free[i], r) == Sum(h.free)
            && Sum(KAlloc(h, r).heap.live) == Sum(h.live) + r.size
            && forall a :: Covered(h.free, a) <==>
                           || Covered(KAlloc(h, r).heap.free, a)
                           || (Within(h.free[i], a) && !Covered(Leftover(h.free[i], r), a))
  {
    var i := Fit(h.free, r);
    var b, l := h.free[i], Leftover(h.free[i], r);
    LeftoverBytes(b, r);
    hide Sum, Covered, Within, Leftover, Lost, Needed, Fit, AlignUp;
    Split(h.free, i);
    Concat(h.free[..i] + l, h.free[i + 1..]);
    Concat(h.free[..i], l);
    Concat(h.live, [Handed(b, r)]);
    Single(Handed(b, r));
  }

  lemma LeftoverBytes(b: Block, r: Request)
    requires 0 < r.align && Needed(b, r) <= b.size
    ensures Sum(Leftover(b, r)) + r.size + Lost(b, r) == b.size
    ensures forall a: nat :: Covered(Leftover(b, r), a) ==> Within(b, a)
    ensures forall a: nat :: Within(b, a) && !Covered(Leftover(b, r), a) ==>
              Within(Handed(b, r), a) || a < Handed(b, r).addr || End(b) - End(Handed(b, r)) < FREE_BLOCK
  {
    AlignUpIs(b.addr, r.align);
    if Leftover(b, r) != [] { Single(Leftover(b, r)[0]); }
    NothingCovered();
    hide AlignUp, Covered;
  }

  lemma NothingCovered()
    ensures Sum([]) == 0 && forall a :: !Covered([], a)
  {}

  // ---- every run --------------------------------------------------------------------------------------------

  datatype KOp = KMalloc(size: nat, align: nat) | KRelease(k: nat)

  predicate KAllowed(h: KHeap, op: KOp)
  {
    match op
    case KMalloc(size, align) => PowerOfTwo(align) && RequestFor(size, align).size < PGSIZE
    case KRelease(k) => k < |h.live|
  }

  function KApply(h: KHeap, op: KOp): KHeap
    requires KAllowed(h, op)
  {
    match op
    case KMalloc(size, align) => KAlloc(h, RequestFor(size, align)).heap
    case KRelease(k) => KFree(h, k)
  }

  ghost predicate KRun(hs: seq<KHeap>, ops: seq<KOp>, lo: nat, size: nat)
  {
    && |hs| == |ops| + 1 && hs[0] == Initial(lo, size)
    && forall i :: 0 <= i < |ops| ==> KAllowed(hs[i], ops[i]) && hs[i + 1] == KApply(hs[i], ops[i])
  }

  lemma {:induction false} KRunKeeps(hs: seq<KHeap>, ops: seq<KOp>, lo: nat, size: nat, i: nat)
    requires KRun(hs, ops, lo, size) && 0 < lo && Multiple(lo, PGSIZE) && FREE_BLOCK <= size && i < |hs|
    ensures Sound(hs[i]) && hs[i].lo == lo && hs[i].hi == lo + size
  {
    if i == 0 {
      MultipleOfMultiple(lo, PGSIZE, HEADER_ALIGN);
    } else {
      KRunKeeps(hs, ops, lo, size, i - 1);
      assert hs[i - 1 + 1] == KApply(hs[i - 1], ops[i - 1]);
      hide Sound, Fit, Leftover, Handed;
      match ops[i - 1]
      case KMalloc(s, align) =>
        RequestIsGood(s, align);
        KAllocKeeps(hs[i - 1], RequestFor(s, align));
      case KRelease(k) => KFreeKeeps(hs[i - 1], k);
    }
  }

  /** The most bytes the allocations of a run can have lost. */
  function Losses(ops: seq<KOp>): nat
  {
    if ops == [] then 0 else
      var op := ops[|ops| - 1];
      Losses(ops[..|ops| - 1]) + if op.KMalloc? then Max(op.align, HEADER_ALIGN) + FREE_BLOCK - 2 else 0
  }

  lemma {:induction false} KRunAccounts(hs: seq<KHeap>, ops: seq<KOp>, lo: nat, size: nat, i: nat)
    requires KRun(hs, ops, lo, size) && 0 < lo && Multiple(lo, PGSIZE) && FREE_BLOCK <= size && i < |hs|
    ensures size - Losses(ops[..i]) <= Sum(hs[i].free) + Sum(hs[i].live) <= size
  {
    if i == 0 {
      Single(Block(lo, size));
      NothingCovered();
    } else {
      KRunAccounts(hs, ops, lo, size, i - 1);
      assert ops[..i][..i - 1] == ops[..i - 1];
      assert hs[i - 1 + 1] == KApply(hs[i - 1], ops[i - 1]);
      StepAccounts(hs[i - 1], ops[i - 1]);
      hide Sum, KApply, KRun, KAllowed;
    }
  }

  lemma StepAccounts(h: KHeap, op: KOp)
    requires KAllowed(h, op)
    ensures var h' := KApply(h, op);
            var lost := Sum(h.free) + Sum(h.live) - Sum(h'.free) - Sum(h'.live);
            0 <= lost <= if op.KMalloc? then Max(op.align, HEADER_ALIGN) + FREE_BLOCK - 2 else 0
  {
    hide Sum, Fit, Leftover, Needed;
    match op
    case KMalloc(size, align) =>
      var r := RequestFor(size, align);
      RequestIsGood(size, align);
      if KAlloc(h, r).block.Some? {
        AllocTakesBytes(h, r);
        LostIsLittle(h.free[Fit(h.free, r)], r);
      }
    case KRelease(k) => FreeAddsBytes(h, k);
  }

  // ---- the allocator in memory --------------------------------------------------------------------------------

  lemma PairApart(bs: seq<Block>, i: nat, j: nat)
    requires Pairwise(bs) && i < |bs| && j < |bs| && i != j
    ensures Apart(bs[i], bs[j])
  {
    if j < i { assert Apart(bs[j], bs[i]); }
  }

  /** An address inside block i heads no other block. */
  lemma InsideOnly(free: seq<Block>, lo: nat, hi: nat, i: nat, a: nat)
    requires AllUsable(free, lo, hi) && Pairwise(free) && i < |free| && Within(free[i], a)
    ensures NotIn(a, free[..i]) && NotIn(a, free[i + 1..])
  {
    forall j | 0 <= j < |free| && j != i ensures free[j].addr != a {
      PairApart(free, i, j);
      assert Usable(free[j], lo, hi);
    }
  }

  lemma DistinctBefore(free: seq<Block>, lo: nat, hi: nat, i: nat)
    requires AllUsable(free, lo, hi) && Pairwise(free) && 0 < i <= |free|
    ensures NotIn(free[i - 1].addr, free[..i - 1]) && NotIn(free[i - 1].addr, free[i..]) && free[i - 1].addr > 0
  {
    assert Usable(free[i - 1], lo, hi);
    InsideOnly(free, lo, hi, i - 1, free[i - 1].addr);
  }

  /** The last block of a chain, or its head, pointed at another chain. */
  lemma Redirect(head: nat, size: map<nat, nat>, next: map<nat, nat>, before: seq<Block>, cur: nat, t: nat,
                 tail: seq<Block>)
    requires Chain(head, size, next, before, cur) && Chain(t, size, next, tail, NULL) && before != []
    requires var p := before[|before| - 1].addr; NotIn(p, before[..|before| - 1]) && NotIn(p, tail)
    ensures Chain(head, size, next[before[|before| - 1].addr := t], before + tail, NULL)
  {
    var n := |before| - 1;
    var p := before[n];
    ChainSplit(head, size, next, before, cur, n);
    ChainFirst(p.addr, size, next, before[n..], cur);
    hide Chain, NotIn;
    assert size == size[p.addr := size[p.addr]];
    ChainFrame(head, size, next, before[..n], p.addr, p.addr, p.size, t);
    ChainFrame(t, size, next, tail, NULL, p.addr, p.size, t);
    ChainCons(size, next[p.addr := t], p, tail, NULL);
    ChainJoin(head, size, next[p.addr := t], before[..n], p.addr, [p] + tail, NULL);
    assert before[..n] + ([p] + tail) == before + tail;
  }

  lemma FreeAddresses(h: KHeap)
    requires Sound(h)
    ensures forall k :: 0 <= k < |h.free| ==> h.free[k].addr != NULL
  {
    forall k | 0 <= k < |h.free| ensures h.free[k].addr != NULL { assert Usable(h.free[k], h.lo, h.hi); }
  }

  class KernelAllocator {
    var head: nat
    var size: map<nat, nat>
    var next: map<nat, nat>
    ghost var heap: KHeap

    ghost predicate Valid() reads this { Sound(heap) && Chain(head, size, next, heap.free, NULL) }

    constructor (lo: nat, bytes: nat)
      requires 0 < lo && Multiple(lo, PGSIZE) && FREE_BLOCK <= bytes
      ensures Valid() && heap == Initial(lo, bytes)
    {
      MultipleOfMultiple(lo, PGSIZE, HEADER_ALIGN);
      head, size, next, heap := lo, map[lo := bytes], map[lo := NULL], Initial(lo, bytes);
      new;
      ChainCons(size, next, Block(lo, bytes), [], NULL);
    }

    method FindFit(r: Request) returns (prev: nat, cur: nat, ghost i: nat)
      requires Valid() && Good(r)
      ensures i == Fit(heap.free, r) && cur == AddrAt(heap.free, i, NULL) && (cur != NULL <==> i < |heap.free|)
      ensures prev == (if i == 0 then NULL else heap.free[i - 1].addr) && (prev != NULL <==> i > 0)
      ensures Chain(head, size, next, heap.free[..i], cur) && Chain(cur, size, next, heap.free[i..], NULL)
    {
      hide Chain, AlignUp, Sound, Fit;
      ghost var free := heap.free;
      FreeAddresses(heap);
      ChainHead(head, size, next, free, NULL);
      prev, cur, i := NULL, head, 0;
      assert free[0..] == free;
      while cur != NULL
        invariant 0 <= i <= |free| && cur == AddrAt(free, i, NULL) && prev == if i == 0 then NULL else free[i - 1].addr
        invariant Chain(cur, size, next, free[i..], NULL)
        invariant forall k :: 0 <= k < i ==> free[k].size < Needed(free[k], r)
        decreases |free| - i
      {
        ChainStep(cur, size, next, free, NULL, i);
        var padding := AlignUp(cur, r.align) - cur;
        if size[cur] >= r.size + padding { break; }
        prev := cur;
        cur := next[cur];
        i := i + 1;
      }
      ChainSplit(head, size, next, free, NULL, i);
    }

    /** The list made to run from the blocks before the i-th straight to another chain. */
    method Bypass(prev: nat, t: nat, ghost before: seq<Block>, ghost cur: nat, ghost tail: seq<Block>)
      requires Chain(head, size, next, before, cur) && Chain(t, size, next, tail, NULL)
      requires (prev != NULL <==> before != []) && (before != [] ==> prev == before[|before| - 1].addr)
      requires before != [] ==> NotIn(prev, before[..|before| - 1]) && NotIn(prev, tail)
      modifies this`head, this`next
      ensures Chain(head, size, next, before + tail, NULL)
    {
      hide Chain, NotIn;
      if prev == NULL {
        head := t;
        assert before + tail == tail;
      } else {
        Redirect(head, size, next, before, cur, t, tail);
        next := next[prev := t];
      }
    }

    /** alloc, for small requests on the initialised heap. */
    method Allocate(bytes: nat, align: nat) returns (ptr: nat)
      requires Valid() && PowerOfTwo(align) && RequestFor(bytes, align).size < PGSIZE
      modifies this
      ensures Valid() && heap == KAlloc(old(heap), RequestFor(bytes, align)).heap
      ensures match KAlloc(old(heap), RequestFor(bytes, align)).block
              case Some(b) => ptr == b.addr && ptr != NULL && Multiple(ptr, RequestFor(bytes, align).align)
              case None => ptr == NULL
    {
      hide Sound, Chain, Fit, Needed;
      var r := RequestFor(bytes, align);
      RequestIsGood(bytes, align);
      KAllocKeeps(heap, r);
      var prev, cur, i := FindFit(r);
      if cur == NULL { return NULL; }
      TakeBlock(prev, cur, r, i);
      FitFacts(heap, i, r);
      ptr := AlignUp(cur, r.align);
      heap := KAlloc(heap, r).heap;
    }

    method TakeBlock(prev: nat, cur: nat, r: Request, ghost i: nat)
      requires Sound(heap) && Good(r) && i < |heap.free| && cur == heap.free[i].addr &&
               Needed(heap.free[i], r) <= heap.free[i].size
      requires prev == (if i == 0 then NULL else heap.free[i - 1].addr) && (prev != NULL <==> i > 0)
      requires Chain(head, size, next, heap.free[..i], cur) && Chain(cur, size, next, heap.free[i..], NULL)
      modifies this`head, this`size, this`next
      ensures Chain(head, size, next, heap.free[..i] + Leftover(heap.free[i], r) + heap.free[i + 1..], NULL)
    {
      hide Sound, Chain, NotIn, AlignUp;
      ghost var free := heap.free;
      ghost var before, after := free[..i], free[i + 1..];
      TakeFacts(heap, i, r);
      ChainFirst(cur, size, next, free[i..], NULL);
      assert free[i..][1..] == after;
      var needed := r.size + (AlignUp(cur, r.align) - cur);
      var remaining := size[cur] - needed;
      if remaining >= FREE_BLOCK {
        var block := cur + needed;
        PutLeftover(block, remaining, next[cur], before, cur, after);
        assert NotIn(prev, [Block(block, remaining)] + after) ||
               i == 0 by { if i > 0 { NotInCons(prev, Block(block, remaining), after); } }
        Bypass(prev, block, before, cur, [Block(block, remaining)] + after);
        assert before + ([Block(block, remaining)] + after) == before + [Block(block, remaining)] + after;
      } else {
        Bypass(prev, next[cur], before, cur, after);
        assert before + [] + after == before + after;
      }
    }

    /** The header of what is left of a block. */
    method PutLeftover(block: nat, remaining: nat, succ: nat, ghost before: seq<Block>, ghost cur: nat,
                       ghost after: seq<Block>)
      requires Chain(head, size, next, before, cur) && Chain(succ, size, next, after, NULL) &&
               NotIn(block, before) && NotIn(block, after)
      modifies this`size, this`next
      ensures Chain(head, size, next, before, cur) && Chain(block, size, next, [Block(block, remaining)] + after, NULL)
      ensures forall a :: a in old(next) ==> a in next && (a != block ==> next[a] == old(next)[a])
    {
      hide Chain, NotIn;
      ChainFrame(head, size, next, before, cur, block, remaining, succ);
      ChainFrame(succ, size, next, after, NULL, block, remaining, succ);
      size := size[block := remaining];
      next := next[block := succ];
      ChainCons(size, next, Block(block, remaining), after, NULL);
    }

    /** dealloc of the k-th live block, for small requests. */
    method Deallocate(ptr: nat, bytes: nat, align: nat, ghost k: nat)
      requires Valid() && PowerOfTwo(align) && RequestFor(bytes, align).size < PGSIZE
      requires ptr != NULL ==> k < |heap.live| && heap.live[k] == Block(ptr, RequestFor(bytes, align).size)
      modifies this
      ensures Valid() && heap == if ptr == NULL then old(heap) else KFree(old(heap), k)
    {
      if ptr == NULL { return; }
      KFreeKeeps(heap, k);
      LiveNotInFree(heap, k);
      hide Sound, Chain, NotIn;
      var r := RequestFor(bytes, align);
      ChainFrame(head, size, next, heap.free, NULL, ptr, r.size, head);
      size := size[ptr := r.size];
      next := next[ptr := head];
      ChainCons(size, next, Block(ptr, r.size), heap.free, NULL);
      head := ptr;
      heap := KFree(heap, k);
    }
  }

  lemma NotInCons(a: nat, b: Block, bs: seq<Block>)
    requires NotIn(a, bs) && a != b.addr
    ensures NotIn(a, [b] + bs)
  {}

  lemma LiveNotInFree(h: KHeap, k: nat)
    requires Sound(h) && k < |h.live|
    ensures NotIn(h.live[k].addr, h.free)
  {
    forall j | 0 <= j < |h.free| ensures h.free[j].addr != h.live[k].addr {
      assert Apart(h.free[j], h.live[k]) && Usable(h.free[j], h.lo, h.hi) && Usable(h.live[k], h.lo, h.hi);
    }
  }

  lemma FitFacts(h: KHeap, i: nat, r: Request)
    requires Good(r) && Sound(h) && i < |h.free| && i == Fit(h.free, r)
    ensures Needed(h.free[i], r) <= h.free[i].size && AlignUp(h.free[i].addr, r.align) > 0
    ensures KAlloc(h, r).block == Some(Handed(h.free[i], r))
  {
    assert Usable(h.free[i], h.lo, h.hi);
    AlignUpIs(h.free[i].addr, r.align);
  }

  /** Where the leftover's header goes, no other free block starts. */
  lemma TakeFacts(h: KHeap, i: nat, r: Request)
    requires Sound(h) && Good(r) && i < |h.free| && Needed(h.free[i], r) <= h.free[i].size
    ensures i > 0 ==> NotIn(h.free[i - 1].addr, h.free[..i - 1]) && NotIn(h.free[i - 1].addr, h.free[i + 1..])
    ensures h.free[i].size - Needed(h.free[i], r) >= FREE_BLOCK ==>
              var block := h.free[i].addr + Needed(h.free[i], r);
              NotIn(block, h.free[..i]) && NotIn(block, h.free[i + 1..]) && (i > 0 ==> h.free[i - 1].addr != block)
    ensures i > 0 ==> h.free[..i][|h.free[..i]| - 1] == h.free[i - 1] && h.free[..i][..i - 1] == h.free[..i - 1]
  {
    var b := h.free[i];
    if i > 0 {
      DistinctBefore(h.free, h.lo, h.hi, i);
      NotInSlices(h.free[i - 1].addr, h.free[i..], 1);
      assert h.free[i..][1..] == h.free[i + 1..];
    }
    if b.size - Needed(b, r) >= FREE_BLOCK {
      InsideOnly(h.free, h.lo, h.hi, i, b.addr + Needed(b, r));
      if i > 0 { assert h.free[..i][i - 1] == h.free[i - 1]; }
    }
  }
}
