/**
 The offline image builder, and what the kernel reads back from an image it wrote.
 */
module MkDisk {
  import opened FsBytes
  import opened FsTree
  import opened FsFreeMap
  import opened FsSteps
  import opened FsInode
  import opened Options
  import Directory = FsDirectory

  // ---- where the builder puts a file ----------------------------------------------------------

  /** Data sectors for len bytes. */
  function SectorsFor(len: nat): nat { (len + SECTOR_SIZE - 1) / SECTOR_SIZE }

  /** Inner pointer sectors for n data sectors. */
  function Inners(n: nat): nat { if n <= INDIRECT_END then 0
                                else (n - INDIRECT_END + PTRS_PER_BLOCK - 1) / PTRS_PER_BLOCK }

  /** Sectors taken after the inode: data, then indirect, doubly indirect, inner. */
  function Extent(n: nat): nat
  {
    n + (if n > DIRECT_CNT then 1 else 0) + (if n > INDIRECT_END then 1 + Inners(n) else 0)
  }

  /** The sector of each slot; 0 for slots the file does not reach. */
  function Place(ino: nat, first: nat, n: nat, s: Slot): nat
  {
    match s
    case Self => ino
    case Data(k) => if k < n then first + k else 0
    case Indirect => if n > DIRECT_CNT then first + n else 0
    case Doubly => if n > INDIRECT_END then first + n + 1 else 0
    case Inner(j) => if j < Inners(n) then first + n + 2 + j else 0
  }

  /** Different slots that are present have different sectors, all inside the extent. */
  lemma PlaceInjective(ino: nat, first: nat, n: nat, s: Slot, t: Slot)
    requires ValidSlot(s) && ValidSlot(t) && n <= BLOCK_CNT && 0 < first && !(first <= ino < first + Extent(n))
    requires s == Self || Place(ino, first, n, s) != 0
    requires t == Self || Place(ino, first, n, t) != 0
    ensures Place(ino, first, n, s) == Place(ino, first, n, t) ==> s == t
    ensures s != Self ==> first <= Place(ino, first, n, s) < first + Extent(n)
  {}

  /** A pointer sector: count sectors from base on. */
  ghost predicate PointsTo(s: Sector, base: nat, count: nat)
  {
    forall i :: 0 <= i < PTRS_PER_BLOCK ==> Word(s, i) == if i < count then base + i else 0
  }

  function Bounded(x: int): nat { if x < 0 then 0 else if x > PTRS_PER_BLOCK then PTRS_PER_BLOCK else x }

  ghost predicate NodePoints(node: Sector, first: nat, n: nat)
  {
    && (forall k :: 0 <= k < DIRECT_CNT ==> Word(node, k) == if k < n then first + k else 0)
    && Word(node, W_INDIRECT) == (if n > DIRECT_CNT then first + n else 0)
    && Word(node, W_DOUBLY) == (if n > INDIRECT_END then first + n + 1 else 0)
  }

  /** The pointer sectors of a file of n blocks. */
  ghost predicate Pointers(d: Disk, ino: nat, first: nat, n: nat)
  {
    && ino < |d| && 0 < first && first + Extent(n) <= |d| && n <= BLOCK_CNT
    && NodePoints(d[ino], first, n)
    && (n > DIRECT_CNT ==> PointsTo(d[first + n], first + DIRECT_CNT, Bounded(n - DIRECT_CNT)))
    && (n > INDIRECT_END ==> PointsTo(d[first + n + 1], first + n + 2, Inners(n)))
    && AllInner(d, first, n, Inners(n))
  }

  ghost predicate InnerPoints(d: Disk, first: nat, n: nat, j: nat)
    requires j < Inners(n) && first + Extent(n) <= |d|
  {
    PointsTo(d[first + n + 2 + j], first + INDIRECT_END + PTRS_PER_BLOCK * j,
             Bounded(n - INDIRECT_END - PTRS_PER_BLOCK * j))
  }

  ghost predicate AllInner(d: Disk, first: nat, n: nat, m: nat)
    requires m <= Inners(n) && first + Extent(n) <= |d|
  {
    forall j :: 0 <= j < m ==> InnerPoints(d, first, n, j)
  }

  lemma AllInnerFrame(d: Disk, d': Disk, first: nat, n: nat, m: nat)
    requires m <= Inners(n) && first + Extent(n) <= |d| == |d'| && AllInner(d, first, n, m)
    requires forall x :: first + n + 2 <= x < first + n + 2 + m ==> d'[x] == d[x]
    ensures AllInner(d', first, n, m)
  {
    hide PointsTo;
    forall j | 0 <= j < m ensures InnerPoints(d', first, n, j) { assert InnerPoints(d, first, n, j); }
  }

  lemma SlotsDirect(d: Disk, ino: nat, first: nat, n: nat, s: Slot)
    requires Pointers(d, ino, first, n) && ValidSlot(s) && (s == Self || Parent(s) == Self)
    ensures At(d, ino, s) == Place(ino, first, n, s)
  {
    hide Word, PointsTo;
  }

  lemma SlotsInner(d: Disk, ino: nat, first: nat, n: nat, j: nat)
    requires Pointers(d, ino, first, n) && j < PTRS_PER_BLOCK
    ensures At(d, ino, Inner(j)) == Place(ino, first, n, Inner(j))
  {
    SlotsDirect(d, ino, first, n, Doubly);
    hide Word, NodePoints;
  }

  lemma SlotsIndirect(d: Disk, ino: nat, first: nat, n: nat, k: nat)
    requires Pointers(d, ino, first, n) && DIRECT_CNT <= k < INDIRECT_END
    ensures At(d, ino, Data(k)) == Place(ino, first, n, Data(k))
  {
    SlotsDirect(d, ino, first, n, Indirect);
    hide Word, NodePoints;
  }

  lemma SlotsDoubly(d: Disk, ino: nat, first: nat, n: nat, k: nat)
    requires Pointers(d, ino, first, n) && INDIRECT_END <= k < BLOCK_CNT
    ensures At(d, ino, Data(k)) == Place(ino, first, n, Data(k))
  {
    var j, i := (k - INDIRECT_END) / PTRS_PER_BLOCK, (k - INDIRECT_END) % PTRS_PER_BLOCK;
    assert Parent(Data(k)) == Inner(j) && Index(Data(k)) == i;
    SlotsInner(d, ino, first, n, j);
    hide Word, NodePoints;
    assert k == INDIRECT_END + PTRS_PER_BLOCK * j + i;
    if j < Inners(n) { assert InnerPoints(d, first, n, j); }
  }

  /** The kernel's walk finds every slot where the builder put it. */
  lemma SlotsPlaced(d: Disk, ino: nat, first: nat, n: nat, s: Slot)
    requires Pointers(d, ino, first, n) && ValidSlot(s)
    ensures At(d, ino, s) == Place(ino, first, n, s)
  {
    hide Pointers, At, Place;
    match s
    case Inner(j) => SlotsInner(d, ino, first, n, j);
    case Data(k) =>
      if k < DIRECT_CNT { SlotsDirect(d, ino, first, n, s); }
      else if k < INDIRECT_END { SlotsIndirect(d, ino, first, n, k); }
      else { SlotsDoubly(d, ino, first, n, k); }
    case _ => SlotsDirect(d, ino, first, n, s);
  }

  // ---- files in the image -----------------------------------------------------------------------

  /** Sector i of the data, zero-filled after its end. */
  function Chunk(data: seq<Byte>, i: nat): Sector
  {
    seq(SECTOR_SIZE, b requires 0 <= b < SECTOR_SIZE =>
      if SECTOR_SIZE * i + b < |data| then data[SECTOR_SIZE * i + b] else 0)
  }

  predicate DataAt(d: Disk, first: nat, data: seq<Byte>, i: nat) { first + i < |d| && d[first + i] == Chunk(data, i) }

  ghost predicate AllData(d: Disk, first: nat, data: seq<Byte>)
  {
    forall i :: 0 <= i < SectorsFor(|data|) ==> DataAt(d, first, data, i)
  }

  lemma AllDataFrame(d: Disk, d': Disk, first: nat, data: seq<Byte>)
    requires AllData(d, first, data) && |d'| == |d|
    requires forall x :: first <= x < first + SectorsFor(|data|) && x < |d| ==> d'[x] == d[x]
    ensures AllData(d', first, data)
  {
    hide Chunk;
    forall i | 0 <= i < SectorsFor(|data|) ensures DataAt(d', first, data, i) { assert DataAt(d, first, data, i); }
  }

  datatype File = File(ino: nat, first: nat, data: seq<Byte>, dir: bool)

  function Blocks(f: File): nat { SectorsFor(|f.data|) }

  function Top(f: File): nat { f.first + Extent(Blocks(f)) }

  ghost predicate Stored(d: Disk, f: File)
  {
    && Pointers(d, f.ino, f.first, Blocks(f)) && |f.data| <= MAX_BYTES
    && AllData(d, f.first, f.data)
    && Word(d[f.ino], W_LENGTH) == |f.data| && (d[f.ino][DIR_BYTE] != 0) == f.dir
  }

  /** Every byte the kernel reads is the byte that was written. */
  lemma StoredByte(d: Disk, f: File, pos: nat)
    requires Stored(d, f) && pos < MAX_BYTES
    ensures ByteAt(d, f.ino, pos) == if pos < |f.data| then f.data[pos] else 0
  {
    var k, b := pos / SECTOR_SIZE, pos % SECTOR_SIZE;
    SlotsPlaced(d, f.ino, f.first, Blocks(f), Data(k));
    assert pos == SECTOR_SIZE * k + b;
    hide At, PointsTo, NodePoints, InnerPoints, Word;
    if k < Blocks(f) { assert DataAt(d, f.first, f.data, k); }
  }

  lemma StoredReads(d: Disk, f: File)
    requires Stored(d, f)
    ensures Len(d, f.ino) == |f.data| && Contents(d, f.ino) == f.data && IsDir(d, f.ino) == f.dir
    ensures Fits(d, f.ino, |f.data|) && |f.data| <= MAX_BYTES
  {
    forall pos: nat | pos < MAX_BYTES ensures ByteAt(d, f.ino, pos) == if pos < |f.data| then f.data[pos] else 0 {
      StoredByte(d, f, pos);
    }
    forall k | Owned(d, f.ino, Data(k)) ensures SECTOR_SIZE * k < |f.data| {
      SlotsPlaced(d, f.ino, f.first, Blocks(f), Data(k));
    }
    hide ByteAt, Pointers, Chunk, Owned;
  }

  // ---- files with direct and indirect pointers only ---------------------------------------------

  function ShortExtent(n: nat): nat { n + (if n > DIRECT_CNT then 1 else 0) }

  /** Bytes that direct and indirect pointers reach, and sectors that so many bytes of a bitmap describe. */
  const REACH := 71680          // 512 * INDIRECT_END
  const MAP_REACH := 573440     // 8 * REACH

  ghost predicate ShortNode(node: Sector, first: nat, n: nat)
  {
    && (forall k :: 0 <= k < DIRECT_CNT ==> Word(node, k) == if k < n then first + k else 0)
    && Word(node, W_INDIRECT) == (if n > DIRECT_CNT then first + n else 0) && Word(node, W_DOUBLY) == 0
  }

  /** The root directory and the free map: all data is written, pointers past the 140th are left out. */
  ghost predicate Short(d: Disk, f: File)
  {
    var n := Blocks(f);
    && f.ino < |d| && 0 < f.first && f.first + ShortExtent(n) <= |d| && ShortNode(d[f.ino], f.first, n)
    && (n > DIRECT_CNT ==> PointsTo(d[f.first + n], f.first + DIRECT_CNT, Bounded(n - DIRECT_CNT)))
    && AllData(d, f.first, f.data)
    && Word(d[f.ino], W_LENGTH) == |f.data| && (d[f.ino][DIR_BYTE] != 0) == f.dir
  }

  /** Without a pointer left out it is a file like the others. */
  lemma ShortStored(d: Disk, f: File)
    requires Short(d, f) && Blocks(f) <= INDIRECT_END
    ensures Stored(d, f)
  {
    hide Word, PointsTo, AllData;
  }

  lemma ShortSlot(d: Disk, f: File, k: nat)
    requires Short(d, f) && k < BLOCK_CNT
    ensures At(d, f.ino, Data(k)) == if k < Blocks(f) && k < INDIRECT_END then f.first + k else 0
  {
    hide Word, AllData;
    if DIRECT_CNT <= k < INDIRECT_END {
      assert At(d, f.ino, Indirect) == Word(d[f.ino], W_INDIRECT);
    } else if INDIRECT_END <= k {
      var j := (k - INDIRECT_END) / PTRS_PER_BLOCK;
      assert Parent(Data(k)) == Inner(j);
      assert At(d, f.ino, Doubly) == 0;
      assert At(d, f.ino, Inner(j)) == 0;
    }
  }

  lemma ShortByte(d: Disk, f: File, pos: nat)
    requires Short(d, f) && pos < MAX_BYTES
    ensures ByteAt(d, f.ino, pos) == if pos < |f.data| && pos < REACH then f.data[pos] else 0
  {
    var k, b := pos / SECTOR_SIZE, pos % SECTOR_SIZE;
    ShortSlot(d, f, k);
    assert pos == SECTOR_SIZE * k + b;
    hide At, PointsTo, ShortNode, Word;
    if k < Blocks(f) { assert DataAt(d, f.first, f.data, k); }
  }

  /** The kernel reads the file's first 71,680 bytes as written and zeros after them. */
  lemma ShortReads(d: Disk, f: File)
    requires Short(d, f) && |f.data| <= MAX_BYTES
    ensures Len(d, f.ino) == |f.data| && IsDir(d, f.ino) == f.dir
    ensures forall pos :: 0 <= pos < |f.data| ==>
              Contents(d, f.ino)[pos] == if pos < REACH then f.data[pos] else 0
  {
    forall pos | 0 <= pos < |f.data| ensures Contents(d, f.ino)[pos] == if pos < REACH then f.data[pos] else 0 {
      ShortByte(d, f, pos);
    }
  }

  ghost predicate Inside(f: File, x: nat) { x == f.ino || f.first <= x < Top(f) }

  /** The files of an image whose sectors below top are taken: stored, and sharing no sector. */
  ghost predicate Image(d: Disk, fs: seq<File>, top: nat)
  {
    && top <= |d| <= U32
    && (forall i :: 0 <= i < |fs| ==>
        Stored(d, fs[i]) && fs[i].ino < top && Top(fs[i]) <= top && !(fs[i].first <= fs[i].ino < Top(fs[i])))
    && (forall i, j, x :: 0 <= i < j < |fs| && Inside(fs[i], x) ==> !Inside(fs[j], x))
  }

  ghost function Inodes(fs: seq<File>): set<nat> { set i | 0 <= i < |fs| :: fs[i].ino }

  lemma OwnedInside(d: Disk, f: File, s: Slot)
    requires Stored(d, f) && Owned(d, f.ino, s)
    ensures At(d, f.ino, s) == Place(f.ino, f.first, Blocks(f), s) && Inside(f, At(d, f.ino, s))
  {
    SlotsPlaced(d, f.ino, f.first, Blocks(f), s);
    hide At, Pointers;
  }

  lemma SameInodeSameFile(d: Disk, fs: seq<File>, top: nat, i: nat, j: nat, x: nat)
    requires Image(d, fs, top) && i < |fs| && j < |fs| && Inside(fs[i], x) && Inside(fs[j], x)
    ensures i == j
  {}

  /** An image is a forest in which every sector has one owner, and its files are well formed. */
  lemma ImageTree(d: Disk, fs: seq<File>, top: nat, used: seq<bool>)
    requires Image(d, fs, top) && |used| == |d| && forall x :: 0 <= x < top ==> used[x]
    ensures Tree(d, used, Inodes(fs)) && FilesOk(d, Inodes(fs))
  {
    var live := Inodes(fs);
    forall o, s | o in live && Owned(d, o, s) ensures InUse(used, At(d, o, s)) {
      var i :| 0 <= i < |fs| && fs[i].ino == o;
      OwnedInside(d, fs[i], s);
    }
    forall o, s, o', s' | o in live && o' in live && Owned(d, o, s) && Owned(d, o', s') && At(d, o, s) == At(d, o', s')
      ensures o == o' && s == s'
    {
      OneOwnerInImage(d, fs, top, o, s, o', s');
    }
    forall o | o in live ensures o < |d| && Fits(d, o, Len(d, o)) {
      var i :| 0 <= i < |fs| && fs[i].ino == o;
      StoredReads(d, fs[i]);
    }
  }

  lemma OneOwnerInImage(d: Disk, fs: seq<File>, top: nat, o: nat, s: Slot, o': nat, s': Slot)
    requires Image(d, fs, top) && o in Inodes(fs) && o' in Inodes(fs)
    requires Owned(d, o, s) && Owned(d, o', s') && At(d, o, s) == At(d, o', s')
    ensures o == o' && s == s'
  {
    var i :| 0 <= i < |fs| && fs[i].ino == o;
    var j :| 0 <= j < |fs| && fs[j].ino == o';
    OwnedInside(d, fs[i], s);
    OwnedInside(d, fs[j], s');
    SameInodeSameFile(d, fs, top, i, j, At(d, o, s));
    hide Stored, At, Place;
    PlaceInjective(o, fs[i].first, Blocks(fs[i]), s, s');
  }

  /** A file reads the same as long as none of its own sectors change. */
  lemma StoredFrame(d: Disk, d': Disk, f: File)
    requires Stored(d, f) && |d'| == |d| && forall x :: 0 <= x < |d| && Inside(f, x) ==> d'[x] == d[x]
    ensures Stored(d', f)
  {
    var n := Blocks(f);
    assert d'[f.ino] == d[f.ino];
    assert forall x :: f.first <= x < Top(f) ==> Inside(f, x);
    AllDataFrame(d, d', f.first, f.data);
    AllInnerFrame(d, d', f.first, n, Inners(n));
    if n > DIRECT_CNT { assert Inside(f, f.first + n); }
    if n > INDIRECT_END { assert Inside(f, f.first + n + 1); }
    hide PointsTo, NodePoints, Chunk, Word;
  }

  lemma ImageFrame(d: Disk, d': Disk, fs: seq<File>, top: nat, top': nat)
    requires Image(d, fs, top) && |d'| == |d| && top <= top' <= |d|
    requires forall i, x :: 0 <= i < |fs| && 0 <= x < |d| && Inside(fs[i], x) ==> d'[x] == d[x]
    ensures Image(d', fs, top')
  {
    forall i | 0 <= i < |fs| ensures Stored(d', fs[i]) { StoredFrame(d, d', fs[i]); }
    hide Stored;
  }

  /** One more file, on sectors no other file has. */
  lemma ImageExtend(d: Disk, fs: seq<File>, top: nat, f: File)
    requires Image(d, fs, top) && Stored(d, f) && f.ino < top && Top(f) <= top && !(f.first <= f.ino < Top(f))
    requires forall i, x :: 0 <= i < |fs| && Inside(fs[i], x) ==> !Inside(f, x)
    ensures Image(d, fs + [f], top)
  {
    hide Stored, Inside;
  }

  // ---- the builder -------------------------------------------------------------------------------

  /** The first i pointers of a pointer sector. */
  lemma PointsToNext(s: Sector, base: nat, i: nat)
    requires PointsTo(s, base, i) && i < PTRS_PER_BLOCK && base + i < U32
    ensures PointsTo(SetWord(s, i, base + i), base, i + 1)
  {
    var s' := SetWord(s, i, base + i);
    forall j | 0 <= j < PTRS_PER_BLOCK ensures Word(s', j) == if j < i + 1 then base + j else 0 {
      WordOfSetWord(s, i, base + i, j);
    }
  }

  lemma ZeroPoints(base: nat)
    ensures PointsTo(ZeroSector(), base, 0)
  {
    var s := ZeroSector();
    forall j | 0 <= j < PTRS_PER_BLOCK ensures Word(s, j) == 0 { WordOfZero(j); }
  }

  method PointerSector(base: nat, count: nat) returns (s: Sector)
    requires count <= PTRS_PER_BLOCK && base + count <= U32
    ensures PointsTo(s, base, count)
  {
    s := ZeroSector();
    ZeroPoints(base);
    hide PointsTo, SetWord;
    for i := 0 to count
      invariant PointsTo(s, base, i)
    {
      PointsToNext(s, base, i);
      s := SetWord(s, i, base + i);
    }
  }

  /** The direct pointers of a new inode. */
  ghost predicate DirectPoints(node: Sector, first: nat, m: nat, len: nat, dir: bool)
  {
    && (forall k :: 0 <= k < W_LENGTH ==> Word(node, k) == if k < m then first + k else 0)
    && Word(node, W_LENGTH) == len && (node[DIR_BYTE] != 0) == dir
  }

  lemma DirectNext(node: Sector, first: nat, m: nat, len: nat, dir: bool)
    requires DirectPoints(node, first, m, len, dir) && m < DIRECT_CNT && first + m < U32
    ensures DirectPoints(SetWord(node, m, first + m), first, m + 1, len, dir)
  {
    var node' := SetWord(node, m, first + m);
    forall k | 0 <= k <= W_LENGTH ensures Word(node', k) == if k == m then first + m else Word(node, k) {
      WordOfSetWord(node, m, first + m, k);
    }
    SetWordBytes(node, m, first + m, DIR_BYTE);
    hide Word, SetWord;
  }

  method NewInode(first: nat, n: nat, len: nat, dir: bool) returns (node: Sector)
    requires first + n <= U32 && len < U32
    ensures DirectPoints(node, first, if n < DIRECT_CNT then n else DIRECT_CNT, len, dir)
  {
    node := FreshInode(len, dir);
    FreshInodeFacts(len, dir);
    hide FreshInode, DirectPoints, SetWord;
    assert DirectPoints(node, first, 0, len, dir) by { FreshDirect(first, len, dir); }
    for i := 0 to if n < DIRECT_CNT then n else DIRECT_CNT
      invariant DirectPoints(node, first, i, len, dir)
    {
      DirectNext(node, first, i, len, dir);
      node := SetWord(node, i, first + i);
    }
  }

  lemma FreshDirect(first: nat, len: nat, dir: bool)
    requires len < U32
    ensures DirectPoints(FreshInode(len, dir), first, 0, len, dir)
  {
    FreshInodeFacts(len, dir);
  }

  /** An inode with its indirect and doubly indirect pointers set. */
  lemma NodeDone(node: Sector, first: nat, n: nat, len: nat, dir: bool)
    requires DirectPoints(node, first, if n < DIRECT_CNT then n else DIRECT_CNT, len, dir) && first + Extent(n) <= U32
    ensures var n1 := if n > DIRECT_CNT then SetWord(node, W_INDIRECT, first + n) else node;
            var n2 := if n > INDIRECT_END then SetWord(n1, W_DOUBLY, first + n + 1) else n1;
            NodePoints(n2, first, n) && Word(n2, W_LENGTH) == len && (n2[DIR_BYTE] != 0) == dir
  {
    var n1 := if n > DIRECT_CNT then SetWord(node, W_INDIRECT, first + n) else node;
    forall k | 0 <= k <= W_LENGTH
        ensures Word(n1, k) == if k == W_INDIRECT && n > DIRECT_CNT then first + n else Word(node, k) {
      if n > DIRECT_CNT { WordOfSetWord(node, W_INDIRECT, first + n, k); }
    }
    var n2 := if n > INDIRECT_END then SetWord(n1, W_DOUBLY, first + n + 1) else n1;
    forall k | 0 <= k <= W_LENGTH
        ensures Word(n2, k) == if k == W_DOUBLY && n > INDIRECT_END then first + n + 1 else Word(n1, k) {
      if n > INDIRECT_END { WordOfSetWord(n1, W_DOUBLY, first + n + 1, k); }
    }
    if n > DIRECT_CNT { SetWordBytes(node, W_INDIRECT, first + n, DIR_BYTE); }
    if n > INDIRECT_END { SetWordBytes(n1, W_DOUBLY, first + n + 1, DIR_BYTE); }
    hide Word, SetWord;
  }

  lemma ShortNodeDone(node: Sector, first: nat, n: nat, len: nat, dir: bool)
    requires DirectPoints(node, first, if n < DIRECT_CNT then n else DIRECT_CNT, len, dir)
    requires first + ShortExtent(n) <= U32
    ensures var n1 := if n > DIRECT_CNT then SetWord(node, W_INDIRECT, first + n) else node;
            ShortNode(n1, first, n) && Word(n1, W_LENGTH) == len && (n1[DIR_BYTE] != 0) == dir
  {
    var n1 := if n > DIRECT_CNT then SetWord(node, W_INDIRECT, first + n) else node;
    forall k | 0 <= k <= W_LENGTH
      ensures Word(n1, k) == if k == W_INDIRECT && n > DIRECT_CNT then first + n else Word(node, k)
    {
      if n > DIRECT_CNT { WordOfSetWord(node, W_INDIRECT, first + n, k); }
    }
    if n > DIRECT_CNT { SetWordBytes(node, W_INDIRECT, first + n, DIR_BYTE); }
    hide Word, SetWord;
  }

  class DiskBuilder {
    var disk: Disk
    var used: seq<bool>
    var nextFree: nat
    ghost var files: seq<File>

    /** Sectors are handed out in order, and those not handed out are still zero. */
    ghost predicate Raw() reads this
    {
      && 2 <= nextFree <= |disk| == |used| && |disk| <= U32
      && (forall x :: 0 <= x < |used| ==> (used[x] <==> x < nextFree))
      && (forall x :: nextFree <= x < |disk| ==> disk[x] == ZeroSector())
    }

    ghost predicate Valid() reads this { Raw() && Image(disk, files, nextFree) }

    constructor (sectors: nat)
      requires 2 <= sectors <= U32
      ensures Valid() && files == [] && |disk| == sectors && nextFree == 2
    {
      disk := seq(sectors, _ => ZeroSector());
      used := seq(sectors, _ => false)[0 := true][1 := true];
      nextFree := 2;
      files := [];
    }

    method AllocSector() returns (s: nat)
      requires Raw() && nextFree < |disk|
      modifies this`used, this`nextFree
      ensures Raw() && s == old(nextFree) && nextFree == s + 1
    {
      s := nextFree;
      used := used[s := true];
      nextFree := nextFree + 1;
    }

    method AllocSectors(n: nat) returns (first: nat)
      requires Raw() && nextFree + n <= |disk|
      modifies this`used, this`nextFree
      ensures Raw() && first == old(nextFree) && nextFree == first + n
    {
      first := nextFree;
      for i := 0 to n
        invariant Raw() && nextFree == first + i && |disk| == old(|disk|)
      {
        var _ := AllocSector();
      }
    }

    /** Data copied sector by sector into zero sectors. */
    method WriteData(first: nat, data: seq<Byte>)
      requires Raw() && first + SectorsFor(|data|) <= nextFree
      requires forall x :: first <= x < first + SectorsFor(|data|) ==> disk[x] == ZeroSector()
      modifies this`disk
      ensures Raw() && |disk| == |old(disk)|
      ensures AllData(disk, first, data)
      ensures forall x :: 0 <= x < |disk| && !(first <= x < first + SectorsFor(|data|)) ==> disk[x] == old(disk)[x]
    {
      for i := 0 to SectorsFor(|data|)
        invariant |disk| == |old(disk)|
        invariant forall x :: 0 <= x < |disk| ==>
                  disk[x] == if first <= x < first + i then Chunk(data, x - first) else old(disk)[x]
      {
        var offset := i * SECTOR_SIZE;
        var end := if offset + SECTOR_SIZE < |data| then offset + SECTOR_SIZE else |data|;
        var bytes: Sector := Splice(disk[first + i], 0, data[offset..end]);
        assert bytes == Chunk(data, i);
        disk := disk[first + i := bytes];
      }
    }

    method WriteSector(s: nat, bytes: Sector)
      requires Raw() && s < nextFree
      modifies this`disk
      ensures Raw() && disk == old(disk)[s := bytes]
    {
      disk := disk[s := bytes];
    }

    /** The inner pointer sectors, each allocated and filled, and the outer sector that lists them. */
    method WriteInners(first: nat, n: nat) returns (outer: Sector)
      requires Raw() && INDIRECT_END < n <= BLOCK_CNT && nextFree == first + n + 2 && first + Extent(n) <= |disk|
      modifies this`disk, this`used, this`nextFree
      ensures Raw() && nextFree == first + Extent(n) && |disk| == |old(disk)|
      ensures PointsTo(outer, first + n + 2, Inners(n)) && AllInner(disk, first, n, Inners(n))
      ensures forall x :: 0 <= x < |disk| && !(first + n + 2 <= x < first + Extent(n)) ==> disk[x] == old(disk)[x]
    {
      hide PointsTo, SetWord, Word;
      outer := ZeroSector();
      ZeroPoints(first + n + 2);
      assert first + n + 2 + Inners(n) == first + Extent(n) && Inners(n) <= PTRS_PER_BLOCK;
      for i := 0 to Inners(n)
        invariant Raw() && nextFree == first + n + 2 + i && |disk| == |old(disk)|
        invariant PointsTo(outer, first + n + 2, i)
        invariant AllInner(disk, first, n, i)
        invariant forall x :: 0 <= x < |disk| && !(first + n + 2 <= x < first + n + 2 + i) ==> disk[x] == old(disk)[x]
      {
        var inner := AllocSector();
        PointsToNext(outer, first + n + 2, i);
        outer := SetWord(outer, i, inner);
        var base := DIRECT_CNT + PTRS_PER_BLOCK + i * PTRS_PER_BLOCK;
        var bytes := PointerSector(first + base, Bounded(n - base));
        ghost var d1 := disk;
        WriteSector(inner, bytes);
        AllInnerFrame(d1, disk, first, n, i);
        assert InnerPoints(disk, first, n, i);
      }
    }

    /** The pointer sectors of a file whose data lies at first. */
    method WriteTables(first: nat, n: nat, node: Sector) returns (node': Sector)
      requires Raw() && 0 < first && n <= BLOCK_CNT && nextFree == first + n && first + Extent(n) <= |disk|
      modifies this`disk, this`used, this`nextFree
      ensures Raw() && nextFree == first + Extent(n) && |disk| == |old(disk)|
      ensures var n1 := if n > DIRECT_CNT then SetWord(node, W_INDIRECT, first + n) else node;
              node' == if n > INDIRECT_END then SetWord(n1, W_DOUBLY, first + n + 1) else n1
      ensures n > DIRECT_CNT ==> PointsTo(disk[first + n], first + DIRECT_CNT, Bounded(n - DIRECT_CNT))
      ensures n > INDIRECT_END ==> PointsTo(disk[first + n + 1], first + n + 2, Inners(n))
      ensures AllInner(disk, first, n, Inners(n))
      ensures forall x :: 0 <= x < |disk| && !(first + n <= x < first + Extent(n)) ==> disk[x] == old(disk)[x]
    {
      hide PointsTo, SetWord;
      node' := node;
      if n > DIRECT_CNT {
        var indirect := AllocSector();
        node' := SetWord(node', W_INDIRECT, indirect);
        var bytes := PointerSector(first + DIRECT_CNT, Bounded(n - DIRECT_CNT));
        WriteSector(indirect, bytes);
      }
      if n > INDIRECT_END {
        var doubly := AllocSector();
        node' := SetWord(node', W_DOUBLY, doubly);
        var outer := WriteInners(first, n);
        ghost var d1 := disk;
        WriteSector(doubly, outer);
        AllInnerFrame(d1, disk, first, n, Inners(n));
      }
    }

    /** The pointer sectors and the inode of data already in place. */
    method LayOut(ino: nat, first: nat, data: seq<Byte>, dir: bool)
      requires Raw() && SectorsFor(|data|) <= BLOCK_CNT && nextFree == first + SectorsFor(|data|) && 0 < first
      requires first + Extent(SectorsFor(|data|)) <= |disk| && ino < first && AllData(disk, first, data)
      modifies this`disk, this`used, this`nextFree
      ensures Raw() && |disk| == |old(disk)| && nextFree == Top(File(ino, first, data, dir)) &&
              Stored(disk, File(ino, first, data, dir))
      ensures forall x :: 0 <= x < first && x != ino ==> disk[x] == old(disk)[x]
    {
      hide PointsTo, SetWord, NodePoints, DirectPoints, AllData, AllInner, Word, Stored;
      var n := SectorsFor(|data|);
      ghost var d0 := disk;
      var node := NewInode(first, n, |data|, dir);
      NodeDone(node, first, n, |data|, dir);
      node := WriteTables(first, n, node);
      ghost var d1 := disk;
      WriteSector(ino, node);
      AllDataFrame(d0, disk, first, data);
      AllInnerFrame(d1, disk, first, n, Inners(n));
      FileDone(disk, File(ino, first, data, dir));
    }

    /** write_file: the file is laid out in order after everything before it. */
    method WriteFile(data: seq<Byte>) returns (ino: nat)
      requires Valid() && SectorsFor(|data|) <= BLOCK_CNT && nextFree + 1 + Extent(SectorsFor(|data|)) <= |disk|
      modifies this
      ensures Valid() && |disk| == |old(disk)| && ino == old(nextFree)
      ensures files == old(files) + [File(ino, ino + 1, data, false)] &&
              nextFree == Top(File(ino, ino + 1, data, false))
      ensures forall x :: 0 <= x < old(nextFree) ==> disk[x] == old(disk)[x]
    {
      hide AllData, Image, Stored, Inners, Chunk;
      ghost var d0 := disk;
      ino := AllocSector();
      var first := AllocSectors(SectorsFor(|data|));
      WriteData(first, data);
      LayOut(ino, first, data, false);
      Added(d0, disk, files, ino, nextFree, File(ino, first, data, false));
      files := files + [File(ino, first, data, false)];
    }

    /** The indirect block, if there are data sectors for it, and the inode; pointers past the indirect
        block's are left out. */
    method ShortLayOut(ino: nat, first: nat, data: seq<Byte>, dir: bool)
      requires Raw() && nextFree == first + SectorsFor(|data|) && 0 < first && |data| < U32
      requires first + ShortExtent(SectorsFor(|data|)) <= |disk| && ino < first && AllData(disk, first, data)
      modifies this`disk, this`used, this`nextFree
      ensures Raw() && |disk| == |old(disk)| && nextFree == first + ShortExtent(SectorsFor(|data|))
      ensures Short(disk, File(ino, first, data, dir))
      ensures forall x :: 0 <= x < first && x != ino ==> disk[x] == old(disk)[x]
    {
      hide PointsTo, SetWord, ShortNode, DirectPoints, AllData, Word;
      var n := SectorsFor(|data|);
      ghost var d0 := disk;
      var node := NewInode(first, n, |data|, dir);
      ShortNodeDone(node, first, n, |data|, dir);
      if n > DIRECT_CNT {
        var indirect := AllocSector();
        node := SetWord(node, W_INDIRECT, indirect);
        var bytes := PointerSector(first + DIRECT_CNT, Bounded(n - DIRECT_CNT));
        WriteSector(indirect, bytes);
      }
      WriteSector(ino, node);
      AllDataFrame(d0, disk, first, data);
    }

    /** write_root_dir: ".", ".." and one entry a file, in sector 1; a file like the others up to the
        reach of its indirect block. */
    method WriteRootDir(entries: seq<DirRecord>)
      requires Valid() && (forall i :: 0 <= i < |entries| ==> entries[i].sector < U32) && |RootData(entries)| < U32
      requires nextFree + ShortExtent(SectorsFor(|RootData(entries)|)) <= |disk|
      requires forall i :: 0 <= i < |files| ==> !Inside(files[i], ROOT_DIR_SECTOR)
      modifies this
      ensures Valid() && |disk| == |old(disk)| && disk[0] == old(disk)[0]
      ensures Short(disk, File(ROOT_DIR_SECTOR, old(nextFree), RootData(entries), true))
      ensures nextFree == old(nextFree) + ShortExtent(SectorsFor(|RootData(entries)|))
      ensures files == if SectorsFor(|RootData(entries)|) <= INDIRECT_END
                       then old(files) + [File(ROOT_DIR_SECTOR, old(nextFree), RootData(entries), true)]
                       else old(files)
    {
      hide AllData, Image, Stored, Short, Chunk, RootData, Inside;
      ghost var d0, top := disk, nextFree;
      var data := RootBytes(entries);
      var first := AllocSectors(SectorsFor(|data|));
      WriteData(first, data);
      ShortLayOut(ROOT_DIR_SECTOR, first, data, true);
      AddedShort(d0, disk, files, top, nextFree, File(ROOT_DIR_SECTOR, first, data, true));
      if SectorsFor(|data|) <= INDIRECT_END { files := files + [File(ROOT_DIR_SECTOR, first, data, true)]; }
    }

    /** Data written over sectors whatever they held. */
    method RewriteData(first: nat, data: seq<Byte>)
      requires Raw() && first + SectorsFor(|data|) <= nextFree
      modifies this`disk
      ensures Raw() && |disk| == |old(disk)| && AllData(disk, first, data)
      ensures forall x :: 0 <= x < |disk| && !(first <= x < first + SectorsFor(|data|)) ==> disk[x] == old(disk)[x]
    {
      for i := 0 to SectorsFor(|data|)
        invariant |disk| == |old(disk)|
        invariant forall x :: 0 <= x < |disk| ==>
                  disk[x] == if first <= x < first + i then Chunk(data, x - first) else old(disk)[x]
      {
        var offset := i * SECTOR_SIZE;
        var end := if offset + SECTOR_SIZE < |data| then offset + SECTOR_SIZE else |data|;
        var bytes: Sector := Splice(ZeroSector(), 0, data[offset..end]);
        assert bytes == Chunk(data, i);
        disk := disk[first + i := bytes];
      }
    }

    /** A large bitmap needs an indirect block, and is built and written again once that is taken. */
    method IndirectFreeMap(first: nat, n: nat, node: Sector, bitmap: Bitmap) returns (node': Sector, bitmap': Bitmap)
      requires Raw() && 0 < first && n == SectorsFor(|bitmap|) && nextFree == first + n
      requires first + ShortExtent(n) <= |disk|
      requires |bitmap| == MapBytes(|disk|) && View(bitmap, |disk|) == used && AllData(disk, first, bitmap)
      modifies this`disk, this`used, this`nextFree
      ensures Raw() && |disk| == |old(disk)| && nextFree == first + ShortExtent(n)
      ensures |bitmap'| == |bitmap| && View(bitmap', |disk|) == used && AllData(disk, first, bitmap')
      ensures node' == if n > DIRECT_CNT then SetWord(node, W_INDIRECT, first + n) else node
      ensures n > DIRECT_CNT ==> PointsTo(disk[first + n], first + DIRECT_CNT, Bounded(n - DIRECT_CNT))
      ensures forall x :: 0 <= x < first ==> disk[x] == old(disk)[x]
    {
      hide AllData, View, PointsTo, Word, SetWord;
      node', bitmap' := node, bitmap;
      if n > DIRECT_CNT {
        var indirect := AllocSector();
        node' := SetWord(node, W_INDIRECT, indirect);
        bitmap' := BuildBitmap(used);
        RewriteData(first, bitmap');
        var bytes := PointerSector(first + DIRECT_CNT, Bounded(n - DIRECT_CNT));
        ghost var d1 := disk;
        WriteSector(indirect, bytes);
        AllDataFrame(d1, disk, first, bitmap');
      }
    }

    /** write_free_map: the bitmap marks every sector taken, its own and its indirect block included; a
        file like the others up to the reach of that block. */
    method WriteFreeMap() returns (bitmap: Bitmap)
      requires Valid() && nextFree + ShortExtent(SectorsFor(MapBytes(|disk|))) <= |disk|
      requires forall i :: 0 <= i < |files| ==> !Inside(files[i], FREE_MAP_SECTOR)
      modifies this
      ensures Valid() && |disk| == |old(disk)| && |bitmap| == MapBytes(|disk|) && View(bitmap, |disk|) == used
      ensures Short(disk, File(FREE_MAP_SECTOR, old(nextFree), bitmap, false))
      ensures nextFree == old(nextFree) + ShortExtent(SectorsFor(|bitmap|))
      ensures files == if SectorsFor(|bitmap|) <= INDIRECT_END
                       then old(files) + [File(FREE_MAP_SECTOR, old(nextFree), bitmap, false)] else old(files)
    {
      hide AllData, Image, Stored, Inside, View, PointsTo, Word, SetWord, ShortNode, DirectPoints, MapBytes,
        SectorsFor;
      ghost var d0, top := disk, nextFree;
      var first;
      first, bitmap := PlaceBitmap();
      var n := SectorsFor(|bitmap|);
      var node := NewInode(first, n, |bitmap|, false);
      ShortNodeDone(node, first, n, |bitmap|, false);
      node, bitmap := IndirectFreeMap(first, n, node, bitmap);
      ghost var d2 := disk;
      WriteSector(FREE_MAP_SECTOR, node);
      AllDataFrame(d2, disk, first, bitmap);
      ghost var f := File(FREE_MAP_SECTOR, first, bitmap, false);
      AddedShort(d0, disk, files, top, nextFree, f);
      if n <= INDIRECT_END { files := files + [f]; }
    }

    /** The bitmap before its own sectors are taken is thrown away for the one after. */
    method PlaceBitmap() returns (first: nat, bitmap: Bitmap)
      requires Raw() && nextFree + SectorsFor(MapBytes(|disk|)) <= |disk|
      modifies this`disk, this`used, this`nextFree
      ensures Raw() && |disk| == |old(disk)| && first == old(nextFree) && nextFree == first + SectorsFor(|bitmap|)
      ensures |bitmap| == MapBytes(|disk|) && View(bitmap, |disk|) == used && AllData(disk, first, bitmap)
      ensures forall x :: 0 <= x < first ==> disk[x] == old(disk)[x]
    {
      hide AllData, View, MapBytes, SectorsFor;
      bitmap := BuildBitmap(used);
      first := AllocSectors(SectorsFor(|bitmap|));
      bitmap := BuildBitmap(used);
      WriteData(first, bitmap);
    }
  }

  /** Bytes of a bitmap for n sectors. */
  function MapBytes(n: nat): (m: nat)
    ensures 8 * m >= n && (n >= 2 ==> m < n)
  {
    (n + 7) / 8
  }

  const ROOT_DIR_SECTOR := 1

  /** The used flags as bytes, least significant bit first. */
  method BuildBitmap(used: seq<bool>) returns (bm: Bitmap)
    ensures |bm| == MapBytes(|used|) && View(bm, |used|) == used
  {
    hide BitSet, BitGet;
    bm := seq(MapBytes(|used|), _ => 0);
    ZeroView(bm, |used|);
    for i := 0 to |used|
      invariant |bm| == MapBytes(|used|) && forall x :: 0 <= x < |used| ==> View(bm, |used|)[x] == (x < i && used[x])
    {
      if used[i] {
        ViewBitSet(bm, |used|, i, true);
        bm := BitSet(bm, i, true);
      }
    }
  }

  lemma ZeroView(bm: Bitmap, n: nat)
    requires forall i :: 0 <= i < |bm| ==> bm[i] == 0
    ensures forall x :: 0 <= x < n ==> !View(bm, n)[x]
  {
    forall x | 0 <= x < n ensures !View(bm, n)[x] { ZeroBits(x % 8); }
  }

  // ---- the root directory -------------------------------------------------------------------------

  datatype DirRecord = DirRecord(name: Directory.Name, sector: nat)

  /** The entries one after the other. */
  function DirData(es: seq<DirRecord>): (c: seq<Byte>)
    requires forall i :: 0 <= i < |es| ==> es[i].sector < U32
    ensures |c| == Directory.ENTRY_SIZE * |es|
  {
    if es == [] then [] else
      var n := |es| - 1;
      DirData(es[..n]) + Directory.MakeEntry(es[n].name, es[n].sector)
  }

  function RootRecords(es: seq<DirRecord>): seq<DirRecord>
  {
    [DirRecord(Directory.DOT, ROOT_DIR_SECTOR), DirRecord(Directory.DOT_DOT, ROOT_DIR_SECTOR)] + es
  }

  function RootData(es: seq<DirRecord>): seq<Byte>
    requires forall i :: 0 <= i < |es| ==> es[i].sector < U32
  {
    DirData(RootRecords(es))
  }

  method RootBytes(es: seq<DirRecord>) returns (data: seq<Byte>)
    requires forall i :: 0 <= i < |es| ==> es[i].sector < U32
    ensures data == RootData(es)
  {
    var records := RootRecords(es);
    data := [];
    for i := 0 to |records|
      invariant data == DirData(records[..i])
    {
      assert records[..i + 1][..i] == records[..i];
      data := data + Directory.MakeEntry(records[i].name, records[i].sector);
    }
    assert records[..|records|] == records;
  }

  /** The inode in sector 0 or 1, with its data from top on. */
  lemma AddedLow(d: Disk, d': Disk, fs: seq<File>, top: nat, top': nat, f: File)
    requires Image(d, fs, top) && |d'| == |d| && top <= top' <= |d| && forall x :: 0 <= x < top && x != f.ino ==>
             d'[x] == d[x]
    requires Stored(d', f) && f.ino < top <= f.first && Top(f) <= top' && forall i :: 0 <= i < |fs| ==>
             !Inside(fs[i], f.ino)
    ensures Image(d', fs + [f], top')
  {
    ImageFrame(d, d', fs, top, top');
    ImageExtend(d', fs, top', f);
  }

  /** The same for a short file: with all its pointers it joins the image, and otherwise the image is
      what it was. */
  lemma AddedShort(d: Disk, d': Disk, fs: seq<File>, top: nat, top': nat, f: File)
    requires Image(d, fs, top) && |d'| == |d| && top' <= |d| && f.ino < top == f.first
    requires forall x :: 0 <= x < top && x != f.ino ==> d'[x] == d[x]
    requires Short(d', f) && top' == top + ShortExtent(Blocks(f)) && forall i :: 0 <= i < |fs| ==> !Inside(fs[i], f.ino)
    ensures Image(d', fs, top')
    ensures Blocks(f) <= INDIRECT_END ==> Image(d', fs + [f], top')
  {
    hide Image, Stored, Short, Inside, SectorsFor;
    KeptLow(d, d', fs, top, top', f.ino);
    if Blocks(f) <= INDIRECT_END {
      ShortStored(d', f);
      AddedLow(d, d', fs, top, top', f);
    }
  }

  lemma KeptLow(d: Disk, d': Disk, fs: seq<File>, top: nat, top': nat, ino: nat)
    requires Image(d, fs, top) && |d'| == |d| && top <= top' <= |d| && forall x :: 0 <= x < top && x != ino ==>
             d'[x] == d[x]
    requires forall i :: 0 <= i < |fs| ==> !Inside(fs[i], ino)
    ensures Image(d', fs, top')
  {
    ImageFrame(d, d', fs, top, top');
  }

  lemma FileDone(d: Disk, f: File)
    requires var n := Blocks(f);
             && f.ino < |d| && 0 < f.first && f.first + Extent(n) <= |d| && n <= BLOCK_CNT
             && NodePoints(d[f.ino], f.first, n) && Word(d[f.ino], W_LENGTH) == |f.data| &&
                 (d[f.ino][DIR_BYTE] != 0) == f.dir
             && (n > DIRECT_CNT ==> PointsTo(d[f.first + n], f.first + DIRECT_CNT, Bounded(n - DIRECT_CNT)))
             && (n > INDIRECT_END ==> PointsTo(d[f.first + n + 1], f.first + n + 2, Inners(n)))
             && AllInner(d, f.first, n, Inners(n)) && AllData(d, f.first, f.data)
    ensures Stored(d, f)
  {}

  /** A new file on sectors from top on leaves the earlier ones alone. */
  lemma Added(d: Disk, d': Disk, fs: seq<File>, top: nat, top': nat, f: File)
    requires Image(d, fs, top) && |d'| == |d| && top <= top' <= |d| && forall x :: 0 <= x < top ==> d'[x] == d[x]
    requires Stored(d', f) && top <= f.ino < f.first && Top(f) <= top'
    ensures Image(d', fs + [f], top')
  {
    ImageFrame(d, d', fs, top, top');
    ImageExtend(d', fs, top', f);
  }

  // ---- the image, and mounting it ----------------------------------------------------------------

  datatype Input = Input(name: Directory.Name, data: seq<Byte>)

  /** The first free sector once the inputs are written from `from` on. */
  function AfterFiles(inputs: seq<Input>, from: nat): (top: nat)
    ensures from <= top
  {
    if inputs == [] then from else
      AfterFiles(inputs[..|inputs| - 1], from) + 1 + Extent(SectorsFor(|inputs[|inputs| - 1].data|))
  }

  function Size(len: nat): nat { Extent(SectorsFor(len)) }

  /** The builder's limits: each file within the doubly indirect range, the root directory and
      the bitmap within the single indirect range, and room for everything. */
  ghost predicate Buildable(inputs: seq<Input>, sectors: nat)
  {
    && 2 <= sectors <= U32
    && (forall i :: 0 <= i < |inputs| ==> SectorsFor(|inputs[i].data|) <= BLOCK_CNT)
    && SectorsFor(Directory.ENTRY_SIZE * (|inputs| + 2)) <= INDIRECT_END &&
        SectorsFor(MapBytes(sectors)) <= INDIRECT_END
    && AfterFiles(inputs, 2) + Size(Directory.ENTRY_SIZE * (|inputs| + 2)) + Size(MapBytes(sectors)) <= sectors
  }

  lemma {:induction false} AfterFilesMonotone(inputs: seq<Input>, from: nat, i: nat)
    requires i <= |inputs|
    ensures AfterFiles(inputs[..i], from) <= AfterFiles(inputs, from)
  {
    if i < |inputs| {
      var n := |inputs| - 1;
      AfterFilesMonotone(inputs[..n], from, i);
      assert inputs[..n][..i] == inputs[..i];
    } else {
      assert inputs[..i] == inputs;
    }
  }

  ghost function Records(inputs: seq<Input>, fs: seq<File>): (es: seq<DirRecord>)
    requires |inputs| <= |fs|
    ensures |es| == |inputs|
  {
    seq(|inputs|, i requires 0 <= i < |inputs| => DirRecord(inputs[i].name, fs[i].ino))
  }

  /** The inputs' files, in order. */
  ghost predicate Inputs(inputs: seq<Input>, fs: seq<File>)
  {
    |fs| >= |inputs| && forall i :: 0 <= i < |inputs| ==>
        fs[i].data == inputs[i].data && !fs[i].dir && fs[i].ino >= 2 && fs[i].first >= 2
  }

  /** All files written, in order, and their directory records collected. */
  method WriteFiles(b: DiskBuilder, inputs: seq<Input>) returns (entries: seq<DirRecord>)
    requires b.Valid() && b.files == [] && b.nextFree == 2 && AfterFiles(inputs, 2) <= |b.disk|
    requires forall i :: 0 <= i < |inputs| ==> SectorsFor(|inputs[i].data|) <= BLOCK_CNT
    modifies b
    ensures b.Valid() && |b.disk| == |old(b.disk)| && b.nextFree == AfterFiles(inputs, 2)
    ensures |b.files| == |inputs| && Inputs(inputs, b.files) && entries == Records(inputs, b.files)
    ensures forall i :: 0 <= i < |entries| ==> entries[i].sector < U32
  {
    hide Image, Extent, SectorsFor;
    entries := [];
    for i := 0 to |inputs|
      invariant b.Valid() && |b.disk| == |old(b.disk)| && b.nextFree == AfterFiles(inputs[..i], 2)
      invariant |b.files| == i == |entries| && Inputs(inputs[..i], b.files) && entries == Records(inputs[..i], b.files)
      invariant forall k :: 0 <= k < i ==> entries[k].sector < U32
    {
      AfterFilesMonotone(inputs, 2, i + 1);
      assert inputs[..i + 1][..i] == inputs[..i];
      var ino := b.WriteFile(inputs[i].data);
      entries := entries + [DirRecord(inputs[i].name, ino)];
    }
    assert inputs[..|inputs|] == inputs;
  }

  /** What a finished image holds: the inputs' files, then the root directory and the free map. */
  ghost predicate Built(image: Disk, inputs: seq<Input>, fs: seq<File>, top: nat)
  {
    var n := |inputs|;
    && |fs| == n + 2 && Inputs(inputs, fs) && Image(image, fs, top)
    && (forall i :: 0 <= i < n ==> fs[i].ino < U32)
    && fs[n].ino == ROOT_DIR_SECTOR && fs[n].dir && fs[n].data == RootData(Records(inputs, fs))
    && fs[n + 1].ino == FREE_MAP_SECTOR && |fs[n + 1].data| == MapBytes(|image|)
    && MarksBelow(fs[n + 1].data, |image|, top)
  }

  /** A bitmap that marks exactly the sectors below top. */
  ghost predicate MarksBelow(bm: Bitmap, n: nat, top: nat) { forall x :: 0 <= x < n ==> (BitGet(bm, x) <==> x < top) }

  lemma ShortSizes(len: nat)
    requires SectorsFor(len) <= INDIRECT_END
    ensures len <= REACH && Size(len) == ShortExtent(SectorsFor(len))
  {}

  /** mkdisk, from its arguments to the image. */
  method BuildImage(sectors: nat, inputs: seq<Input>) returns (image: Disk, ghost fs: seq<File>, ghost top: nat)
    requires Buildable(inputs, sectors)
    ensures |image| == sectors && Built(image, inputs, fs, top)
  {
    hide Image, SectorsFor, MapBytes, View, RootData, Stored, Short, Extent, ShortExtent;
    ShortSizes(Directory.ENTRY_SIZE * (|inputs| + 2));
    ShortSizes(MapBytes(sectors));
    var b := new DiskBuilder(sectors);
    var entries := WriteFiles(b, inputs);
    ghost var files := b.files;
    RootSize(entries);
    b.WriteRootDir(entries);
    var bitmap := b.WriteFreeMap();
    image, fs, top := b.disk, b.files, b.nextFree;
    assert Records(inputs, fs) == entries;
    assert forall i :: 0 <= i < |inputs| ==> entries[i].sector == fs[i].ino;
    MarksUsed(bitmap, b.used, top);
  }

  lemma MarksUsed(bm: Bitmap, used: seq<bool>, top: nat)
    requires View(bm, |used|) == used && forall x :: 0 <= x < |used| ==> (used[x] <==> x < top)
    ensures MarksBelow(bm, |used|, top)
  {
    forall x | 0 <= x < |used| ensures BitGet(bm, x) <==> x < top { assert View(bm, |used|)[x] == BitGet(bm, x); }
  }

  /** What the kernel reads as the map of an image: of the sectors taken, those below 573,440. */
  lemma MapReads(d: Disk, f: File, used: seq<bool>, x: nat)
    requires Short(d, f) && |f.data| == MapBytes(|used|) <= MAX_BYTES && View(f.data, |used|) == used && x < |used|
    ensures Len(d, f.ino) == |f.data| && (BitGet(Contents(d, f.ino), x) <==> used[x] && x < MAP_REACH)
  {
    ShortReads(d, f);
    assert View(f.data, |used|)[x] == BitGet(f.data, x);
    ZeroBits(x % 8);
    hide Short;
  }

  /** So the map on a disk of any size is right exactly if the builder stopped below that sector; from
      there on a sector it took is reported free. */
  lemma MapRightIff(d: Disk, f: File, used: seq<bool>, top: nat)
    requires Short(d, f) && |f.data| == MapBytes(|used|) <= MAX_BYTES && View(f.data, |used|) == used && top <= |used|
    requires forall x :: 0 <= x < |used| ==> (used[x] <==> x < top)
    ensures Len(d, f.ino) == |f.data| && (MarksBelow(Contents(d, f.ino), |used|, top) <==> top <= MAP_REACH)
  {
    ShortReads(d, f);
    forall x | 0 <= x < |used| ensures BitGet(Contents(d, f.ino), x) <==> used[x] && x < MAP_REACH {
      MapReads(d, f, used, x);
    }
    hide Short, BitGet, View;
    if top > MAP_REACH { assert used[MAP_REACH] && !BitGet(Contents(d, f.ino), MAP_REACH); }
  }

  lemma RootSize(es: seq<DirRecord>)
    requires forall i :: 0 <= i < |es| ==> es[i].sector < U32
    ensures |RootData(es)| == Directory.ENTRY_SIZE * (|es| + 2)
  {}

  /** Mounting: a fresh file system over the image whose free map is then read from it.  Every
      sector the builder took is marked, every other is free, and all files are in order, so
      whatever the kernel allocates later belongs to none of them. */
  method Mount(image: Disk, ghost inputs: seq<Input>, ghost fs: seq<File>, ghost top: nat) returns (sys: FileSystem)
    requires Built(image, inputs, fs, top) && 2 <= |image|
    ensures fresh(sys) && fresh(sys.cache) && sys.Valid() && sys.disk == image && sys.live == Inodes(fs)
    ensures MarksBelow(sys.bitmap, |image|, top)
  {
    hide Tree, FilesOk, Built, Inodes, InRange, Fits, BitGet;
    MountFacts(image, inputs, fs, top);
    sys := new FileSystem(image);
    sys.OpenFreeMap(Inodes(fs));
  }

  lemma MountFacts(image: Disk, inputs: seq<Input>, fs: seq<File>, top: nat)
    requires Built(image, inputs, fs, top) && 2 <= |image|
    ensures FREE_MAP_SECTOR in Inodes(fs) && InRange(image, FREE_MAP_SECTOR) && FilesOk(image, Inodes(fs))
    ensures var len := Len(image, FREE_MAP_SECTOR);
            && len == MapBytes(|image|) && len <= MAX_BYTES && Fits(image, FREE_MAP_SECTOR, len)
            && MarksBelow(Contents(image, FREE_MAP_SECTOR), |image|, top)
            && Tree(image, View(Contents(image, FREE_MAP_SECTOR), |image|), Inodes(fs))
  {
    hide Tree, FilesOk, InRange, Fits, BitGet, Stored, Inputs, MapBytes, RootData;
    var f := fs[|inputs| + 1];
    var used := View(f.data, |image|);
    ImageTree(image, fs, top, used);
    StoredReads(image, f);
    assert f.ino in Inodes(fs);
    TreeInRange(image, used, Inodes(fs), f.ino);
  }

  // ---- finding the files again ---------------------------------------------------------------------

  lemma {:induction false} DirDataAt(es: seq<DirRecord>, i: nat)
    requires (forall k :: 0 <= k < |es| ==> es[k].sector < U32) && i < |es|
    ensures Directory.Count(DirData(es)) == |es|
    ensures Directory.EntryAt(DirData(es), i) == Directory.MakeEntry(es[i].name, es[i].sector)
  {
    var n := |es| - 1;
    if i < n {
      DirDataAt(es[..n], i);
      var a, b := DirData(es[..n]), Directory.MakeEntry(es[n].name, es[n].sector);
      assert (a + b)[20 * i..20 * i + 20] == a[20 * i..20 * i + 20];
    }
  }

  ghost predicate DistinctNames(es: seq<DirRecord>)
  {
    && (forall i :: 0 <= i < |es| ==> Directory.Proper(es[i].name))
    && (forall i, j :: 0 <= i < j < |es| ==> es[i].name != es[j].name)
  }

  /** A directory written entry by entry maps each name to its sector. */
  lemma DirDataLookup(es: seq<DirRecord>, i: nat)
    requires (forall k :: 0 <= k < |es| ==> es[k].sector < U32) && DistinctNames(es) && i < |es|
    ensures Directory.LookupIn(DirData(es), es[i].name) == Some(es[i].sector)
  {
    var c := DirData(es);
    DirDataAt(es, i);
    forall k, j, name | 0 <= k < j < Directory.Count(c) && Directory.NameMatches(Directory.EntryAt(c, k), name)
      ensures !Directory.NameMatches(Directory.EntryAt(c, j), name)
    {
      DirDataAt(es, k);
      DirDataAt(es, j);
      Directory.EntryRoundTrip(es[k].name, es[k].sector, name);
      Directory.EntryRoundTrip(es[j].name, es[j].sector, name);
    }
    Directory.EntryRoundTrip(es[i].name, es[i].sector, es[i].name);
    Directory.FindIs(c, es[i].name, i);
  }

  /** The names of an image: short, all different, and none of them "." or "..". */
  ghost predicate GoodNames(inputs: seq<Input>)
  {
    && (forall i :: 0 <= i < |inputs| ==>
        Directory.Proper(inputs[i].name) && inputs[i].name != Directory.DOT && inputs[i].name != Directory.DOT_DOT)
    && (forall i, j :: 0 <= i < j < |inputs| ==> inputs[i].name != inputs[j].name)
  }

  /** The round trip: on the finished image, looking up a file's name in the root directory gives
      its inode, and the inode's contents are the file's bytes. */
  lemma ImageRoundTrip(image: Disk, inputs: seq<Input>, fs: seq<File>, top: nat, i: nat)
    requires Built(image, inputs, fs, top) && GoodNames(inputs) && i < |inputs|
    ensures ROOT_DIR_SECTOR < |image| && fs[i].ino < |image| && Len(image, ROOT_DIR_SECTOR) <= MAX_BYTES &&
            Len(image, fs[i].ino) <= MAX_BYTES
    ensures Directory.LookupIn(Contents(image, ROOT_DIR_SECTOR), inputs[i].name) == Some(fs[i].ino)
    ensures Contents(image, fs[i].ino) == inputs[i].data
  {
    hide Stored, Contents, Fits, RootData, MarksBelow, MapBytes;
    StoredReads(image, fs[|inputs|]);
    StoredReads(image, fs[i]);
    RootLookup(inputs, fs, i);
  }

  lemma RootLookup(inputs: seq<Input>, fs: seq<File>, i: nat)
    requires |inputs| <= |fs| && GoodNames(inputs) && i < |inputs| && forall k :: 0 <= k < |inputs| ==> fs[k].ino < U32
    ensures Directory.LookupIn(RootData(Records(inputs, fs)), inputs[i].name) == Some(fs[i].ino)
  {
    hide Directory.LookupIn, DirData;
    var es := RootRecords(Records(inputs, fs));
    assert DistinctNames(es);
    DirDataLookup(es, i + 2);
  }

  lemma MountedInodes(image: Disk, inputs: seq<Input>, fs: seq<File>, top: nat, i: nat)
    requires Built(image, inputs, fs, top) && i < |inputs|
    ensures |fs| == |inputs| + 2 && fs[i].ino in Inodes(fs) && ROOT_DIR_SECTOR in Inodes(fs)
  {
    assert fs[|inputs|].ino in Inodes(fs) && fs[i].ino in Inodes(fs);
  }

  /** The whole way: build an image, mount it, look a file up by its name, read it, and take a free
      sector.  The bytes are those given to the builder, and the sector belongs to no file. */
  method BuildAndRead(sectors: nat, inputs: seq<Input>, i: nat)
    returns (bytes: array<Byte>, sector: Option<nat>, sys: FileSystem)
    requires Buildable(inputs, sectors) && GoodNames(inputs) && i < |inputs|
    ensures bytes[..] == inputs[i].data
    ensures fresh(sys) && sys.Valid()
    ensures sector.Some? ==> 2 <= sector.value < |sys.disk| && Unowned(sys.disk, sys.live, sector.value)
    ensures sector.None? ==> NoneFree(sys.Used())
  {
    hide Tree, FilesOk, Built, Inodes, InRange, Contents, BitGet, CacheOk, Unowned, GoodNames, Buildable, OpenOk;
    BuildableSize(inputs, sectors);
    var image;
    ghost var fs, top;
    image, fs, top := BuildImage(sectors, inputs);
    ImageRoundTrip(image, inputs, fs, top, i);
    MountedInodes(image, inputs, fs, top, i);
    sys := Mount(image, inputs, fs, top);
    sys.LiveReadable(ROOT_DIR_SECTOR);
    var r := Directory.Lookup(sys, ROOT_DIR_SECTOR, inputs[i].name);
    var ino := r.value;
    sys.LiveReadable(ino);
    var len := sys.Length(ino);
    bytes := new Byte[len](_ => 0);
    var n := sys.ReadAt(ino, bytes, len, 0);
    ReadWhole(bytes[..], n, Contents(image, ino));
    sector := TakeSector(sys);
  }

  lemma ReadWhole(b: seq<Byte>, n: nat, c: seq<Byte>)
    requires |b| == |c| && n == (if |c| == 0 then 0 else |c|) && (n > 0 ==> b[..n] == c[0..n])
    ensures b == c
  {}

  lemma BuildableSize(inputs: seq<Input>, sectors: nat)
    requires Buildable(inputs, sectors)
    ensures 2 <= sectors
  {}

  /** A sector from the free map of a mounted image. */
  method TakeSector(sys: FileSystem) returns (r: Option<nat>)
    requires sys.Valid()
    modifies sys`bitmap
    ensures sys.Valid()
    ensures r.Some? ==> 2 <= r.value < |sys.disk| && !old(sys.Used())[r.value] && Unowned(sys.disk, sys.live, r.value)
    ensures r.None? ==> NoneFree(sys.Used())
  {
    hide CacheOk;
    ghost var u := sys.Used();
    r := sys.AllocateOne();
    if r.Some? {
      FreeIsUnowned(sys.disk, u, sys.live, r.value);
      TreeMark(sys.disk, u, sys.Used(), sys.live);
    }
  }
}
