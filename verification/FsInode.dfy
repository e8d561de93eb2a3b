/**
 The inode layer: create, open, close, remove, truncate, read_at and write_at over
 the block tree, with sectors taken from the free map and read and written through
 the buffer cache.

 The on-disk inode is a sector; the copy that an operation holds in memory is
 a sector value too.
 */
module FsInode {
  import opened FsBytes
  import opened FsTree
  import opened FsFreeMap
  import opened FsSteps
  import opened FsCost
  import opened Options
  import Cache = BufferCache

  datatype OpenInode = OpenInode(openCnt: int, removed: bool, denyWriteCnt: int, length: nat, isDir: bool)

  /** The in-memory inode agrees with the disk. */
  ghost predicate OpenOk(d: Disk, open: map<nat, OpenInode>, live: set<nat>)
  {
    forall o :: o in open ==> o in live && o < |d| && open[o].length == Len(d, o) && open[o].isDir == IsDir(d, o)
  }

  lemma OpenOkAfter(d: Disk, d': Disk, open: map<nat, OpenInode>, live: set<nat>, ino: nat)
    requires OpenOk(d, open, live) && |d'| == |d| && ino < |d| && IsDir(d', ino) == IsDir(d, ino)
    requires forall o :: o in live && o != ino ==> SameFile(d, d', o)
    ensures OpenOk(d', if ino in open then open[ino := open[ino].(length := Len(d', ino))] else open, live)
  {
    hide Len, IsDir;
    forall o | o in open && o != ino ensures Len(d', o) == Len(d, o) && IsDir(d', o) == IsDir(d, o) {
      SameFileContents(d, d', o);
    }
  }

  const FREE_MAP_SECTOR := 0

  /** The same inodes are open, as often, with the same marks; only a length may differ. */
  ghost predicate SameHandles(open: map<nat, OpenInode>, open': map<nat, OpenInode>)
  {
    open'.Keys == open.Keys && forall i :: i in open ==> open'[i] == open[i].(length := open'[i].length)
  }

  predicate Denied(open: map<nat, OpenInode>, ino: nat) { ino in open && open[ino].denyWriteCnt > 0 }

  /** The inode's pointers, and those of its doubly indirect sector, are on the disk. */
  predicate PointersOk(d: Disk, node: Sector)
  {
    && Word(node, W_INDIRECT) < |d| && Word(node, W_DOUBLY) < |d|
    && (Word(node, W_DOUBLY) != 0 ==> forall j :: 0 <= j < PTRS_PER_BLOCK ==> Word(d[Word(node, W_DOUBLY)], j) < |d|)
  }

  /** The device has disk d and the cache shows it, its buffers are held as often as refs says, and one
      is not held at all. */
  ghost predicate CacheOk(bufs: seq<Cache.Buf>, device: Disk, d: Disk, refs: seq<nat>)
  {
    && Cache.Coherent(bufs, device) && Cache.Logical(bufs, device) == d == device
    && Cache.Refs(bufs) == refs && Cache.Room(refs)
  }

  /** The same with buffer i held once more, for sector s. */
  ghost predicate HoldOk(bufs: seq<Cache.Buf>, device: Disk, d: Disk, refs: seq<nat>, i: nat, s: nat)
  {
    && Cache.Coherent(bufs, device) && Cache.Logical(bufs, device) == d == device
    && Cache.Refs(bufs) == Cache.Taken(refs, i)
    && Cache.Room(refs) && Cache.Held(bufs, device, i, s) && s < |d| && bufs[i].data == d[s]
  }

  class FileSystem {
    const cache: Cache.BCache
    const sectorCount: nat
    var bitmap: Bitmap
    var open: map<nat, OpenInode>
    ghost var disk: Disk           // what the device has and the cache shows
    ghost var held: seq<nat>       // how often each buffer is held by others; no operation changes it
    ghost var live: set<nat>

    ghost function Used(): (u: seq<bool>)
      reads this
      ensures |u| == |disk|
    {
      View(bitmap, |disk|)
    }

    ghost predicate Sized()
      reads this
    {
      |disk| == sectorCount <= 8 * |bitmap| && sectorCount <= U32
    }

    /** No operation is under way: all buffers are held as before, everything is on the device, and
        the cache shows it. */
    ghost predicate Ready()
      reads this, cache
    {
      Sized() && cache.disk == disk && CacheOk(cache.bufs, cache.disk, disk, held)
    }

    ghost predicate Holding(i: nat, s: nat)
      reads this, cache
    {
      cache.disk == disk && HoldOk(cache.bufs, cache.disk, disk, held, i, s)
    }

    /** inode::init and free_map::init on a device of |d| sectors: sectors 0 and 1 are taken. */
    constructor (d: Disk)
      requires 2 <= |d| <= U32
      ensures Valid() && fresh(cache) && disk == d && live == {} && open == map[] && |bitmap| == (|d| + 7) / 8
      ensures forall x :: 0 <= x < |d| ==> (Used()[x] <==> x < 2)
    {
      var bm: Bitmap := seq((|d| + 7) / 8, _ => 0);
      cache := new Cache.BCache(d);
      sectorCount := |d|;
      disk, open, live, held := d, map[], {}, seq(Cache.NBUF, _ => 0);
      bitmap := BitSet(BitSet(bm, 0, true), 1, true);
      new;
      assert Cache.Room(held) by { assert held[0] == 0; }
      forall x | 0 <= x < |d| ensures Used()[x] <==> x < 2 {
        BitSetGet(BitSet(bm, 0, true), 1, true, x);
        BitSetGet(bm, 0, true, x);
        ZeroBits(x % 8);
      }
    }

    /** Between operations the cache is in order and shows the device, every valid buffer has its
        sector's bytes, and each buffer is held as before. */
    lemma ReadyMeans()
      requires Ready()
      ensures cache.Valid() && cache.View() == disk == cache.disk && Cache.Refs(cache.bufs) == held && Cache.Room(held)
      ensures forall i :: 0 <= i < |cache.bufs| && cache.bufs[i].valid ==>
                cache.bufs[i].sector < |cache.disk| && cache.bufs[i].data == cache.disk[cache.bufs[i].sector]
    {
      Cache.AllOnDisk(cache.bufs, cache.disk);
    }

    // ---- sectors through the cache ------------------------------------------------------

    /** bread, which finds a buffer because one is not held. */
    method Hold(s: nat) returns (i: nat, data: Sector)
      requires Ready() && s < |disk|
      modifies cache
      ensures Holding(i, s) && data == disk[s]
    {
      i := cache.Acquire(s);
      data := cache.bufs[i].data;
    }

    method Drop(i: nat, s: nat)
      requires Holding(i, s)
      modifies cache
      ensures cache.disk == disk && CacheOk(cache.bufs, cache.disk, disk, held)
    {
      cache.Release(i, s, held);
    }

    /** The held sector overwritten, and bwrite. */
    method Overwrite(i: nat, s: nat, data: Sector)
      requires Holding(i, s)
      modifies cache, this`disk
      ensures Holding(i, s) && disk == old(disk)[s := data]
    {
      cache.Overwrite(i, s, data);
      disk := disk[s := data];
    }

    /** A sector copied out. */
    method Get(s: nat) returns (data: Sector)
      requires Ready() && s < |disk|
      modifies cache
      ensures Ready() && data == disk[s]
    {
      hide CacheOk, HoldOk;
      var i;
      i, data := Hold(s);
      Drop(i, s);
    }

    /** A sector overwritten. */
    method Put(s: nat, data: Sector)
      requires Ready() && s < |disk|
      modifies cache, this`disk
      ensures Ready() && disk == old(disk)[s := data] && cache.disk == old(cache.disk)[s := data]
    {
      hide CacheOk, HoldOk;
      var i, _ := Hold(s);
      Overwrite(i, s, data);
      Drop(i, s);
    }

    /** A pointer stored in a sector. */
    method Poke(s: nat, idx: nat, v: nat)
      requires Ready() && s < |disk| && idx < PTRS_PER_BLOCK && v < U32
      modifies cache, this`disk
      ensures Ready() && disk == old(disk)[s := SetWord(old(disk)[s], idx, v)]
    {
      hide CacheOk, HoldOk, SetWord;
      var i, data := Hold(s);
      Overwrite(i, s, SetWord(data, idx, v));
      Drop(i, s);
    }

    /** Bytes copied into a sector. */
    method Patch(s: nat, at: nat, bytes: seq<Byte>)
      requires Ready() && s < |disk| && at + |bytes| <= SECTOR_SIZE
      modifies cache, this`disk
      ensures Ready() && disk == old(disk)[s := Splice(old(disk)[s], at, bytes)]
    {
      hide CacheOk, HoldOk, Splice;
      var i, data := Hold(s);
      Overwrite(i, s, Splice(data, at, bytes));
      Drop(i, s);
    }

    /** get_block_sector_disk, one buffer at a time. */
    method LookUp(node: Sector, idx: nat) returns (r: Option<nat>)
      requires Ready() && idx < BLOCK_CNT && PointersOk(disk, node)
      modifies cache
      ensures Ready() && r == GetBlockSector(disk, node, idx)
    {
      hide CacheOk, Word;
      if idx < DIRECT_CNT {
        return NonZero(Word(node, idx));
      }
      if idx < INDIRECT_END {
        if Word(node, W_INDIRECT) == 0 { return None; }
        var data := Get(Word(node, W_INDIRECT));
        return NonZero(Word(data, idx - DIRECT_CNT));
      }
      if Word(node, W_DOUBLY) == 0 { return None; }
      var rel := idx - INDIRECT_END;
      var outer := Get(Word(node, W_DOUBLY));
      var inner := Word(outer, rel / PTRS_PER_BLOCK);
      if inner == 0 { return None; }
      var data := Get(inner);
      return NonZero(Word(data, rel % PTRS_PER_BLOCK));
    }

    // ---- the free map -------------------------------------------------------------------

    /** allocate: the first run of cnt free sectors from sector 2 on. */
    method Allocate(cnt: nat) returns (r: Option<nat>)
      requires Sized()
      modifies this`bitmap
      ensures Sized()
      ensures r.Some? ==> cnt > 0 && 2 <= r.value && FreeRun(old(Used()), r.value, cnt)
      ensures r.Some? ==> Used() == Marked(old(Used()), r.value, cnt)
      ensures r.Some? ==> forall s :: 2 <= s < r.value ==> !FreeRun(old(Used()), s, cnt)
      ensures r.None? ==> bitmap == old(bitmap) && (cnt > 0 ==> forall s :: 2 <= s ==> !FreeRun(old(Used()), s, cnt))
    {
      if cnt == 0 { return None; }
      var start := 2;
      while start + cnt <= sectorCount
        invariant 2 <= start && bitmap == old(bitmap)
        invariant forall s :: 2 <= s < start ==> !FreeRun(Used(), s, cnt)
        decreases sectorCount - start
      {
        var i := 0;
        while i < cnt && !BitGet(bitmap, start + i)
          invariant 0 <= i <= cnt && forall x :: start <= x < start + i ==> !Used()[x]
        {
          i := i + 1;
        }
        if i == cnt {
          MarkRun(start, cnt);
          return Some(start);
        }
        assert Used()[start + i];
        assert forall s :: start <= s <= start + i ==> !FreeRun(Used(), s, cnt);
        start := start + i + 1;
      }
      return None;
    }

    method MarkRun(start: nat, cnt: nat)
      requires Sized() && start + cnt <= |disk|
      modifies this`bitmap
      ensures Sized() && Used() == Marked(old(Used()), start, cnt)
    {
      ghost var u := Used();
      var i := 0;
      while i < cnt
        invariant 0 <= i <= cnt && Sized() && |bitmap| == |old(bitmap)| && Used() == Marked(u, start, i)
      {
        ViewBitSet(bitmap, |disk|, start + i, true);
        bitmap := BitSet(bitmap, start + i, true);
        i := i + 1;
      }
    }

    /** release(s, 1). */
    method Release(s: nat)
      requires Sized() && s < |disk|
      modifies this`bitmap
      ensures Sized() && Used() == old(Used())[s := false]
    {
      ViewBitSet(bitmap, |disk|, s, false);
      bitmap := BitSet(bitmap, s, false);
    }

    /** allocate(1). */
    method AllocateOne() returns (r: Option<nat>)
      requires Sized()
      modifies this`bitmap
      ensures Sized()
      ensures r.Some? ==> 2 <= r.value < |disk| && !old(Used())[r.value] && Used() == old(Used())[r.value := true]
      ensures r.None? ==> bitmap == old(bitmap) && NoneFree(Used())
    {
      ghost var u := Used();
      r := Allocate(1);
      if r.None? {
        forall x | 2 <= x < |u| ensures u[x] { assert !FreeRun(u, x, 1); }
      } else {
        assert Marked(u, r.value, 1) == u[r.value := true];
      }
    }

    // ---- linking a block ----------------------------------------------------------------

    /** A pointer block that hangs off the inode: allocated, linked and zeroed if missing. */
    method EnsureInNode(ghost ino: nat, node: Sector, m: Slot, ghost keep: nat) returns (node': Sector, ok: bool)
      requires Ready() && Seen(disk, Used(), live, ino, node) && (m == Indirect || m == Doubly)
      requires InUse(Used(), keep) && Unowned(disk[ino := node], live, keep)
      modifies this`disk, this`bitmap, cache
      ensures Ready() && ino < |disk| && Ensured(old(disk), old(Used()), node, disk, Used(), node', live, ino, {m},
                                                 keep, ok)
      ensures At(disk[ino := node'], ino, m) == Word(node', Index(m))
    {
      hide Stepped, Seen, Unowned, At, CacheOk, Ensured, SetWord, Word, NoneFree;
      ghost var d0, u0 := disk, Used();
      node', ok := node, true;
      NodeSlot(d0, u0, live, ino, node, m);
      if Word(node, Index(m)) == 0 {
        var r := AllocateOne();
        if r.None? {
          EnsuredFull(d0, u0, node, live, ino, m, keep);
          ok := false;
          return;
        }
        var v := r.value;
        node' := SetWord(node, Index(m), v);
        Put(v, ZeroSector());
        NodeEnsured(d0, u0, node, ino, live, m, v, node', keep);
      } else {
        EnsuredThere(d0, u0, node, live, ino, m, keep);
      }
    }

    /** The inner pointer block j of the doubly indirect level.  The outer sector is held while a
        sector for it is looked for, and given back either way. */
    method EnsureInner(ghost ino: nat, node: Sector, j: nat, ghost keep: nat) returns (inner: nat, ok: bool)
      requires Ready() && Seen(disk, Used(), live, ino, node) && j < PTRS_PER_BLOCK
      requires At(disk[ino := node], ino, Doubly) != 0
      requires InUse(Used(), keep) && Unowned(disk[ino := node], live, keep)
      modifies this`disk, this`bitmap, cache
      ensures Ready() && ino < |disk| && Ensured(old(disk), old(Used()), node, disk, Used(), node, live, ino,
                                                 {Inner(j)}, keep, ok)
      ensures ok ==> At(disk[ino := node], ino, Inner(j)) == inner
    {
      hide Stepped, Seen, Unowned, At, CacheOk, HoldOk, Ensured, SetWord, Word, NoneFree, InUse;
      ghost var d0, u0 := disk, Used();
      ok := true;
      var outer := Word(node, W_DOUBLY);
      OuterWord(d0, u0, live, ino, node, j);
      SeenTree(d0, u0, live, ino, node);
      var i, data := Hold(outer);
      inner := Word(data, j);
      if inner == 0 {
        var r := AllocateOne();
        if r.None? {
          Drop(i, outer);
          EnsuredFull(d0, u0, node, live, ino, Inner(j), keep);
          ok := false;
          return;
        }
        inner := r.value;
        Overwrite(i, outer, SetWord(data, j, inner));
        Drop(i, outer);
        Put(inner, ZeroSector());
        InnerEnsured(d0, u0, node, ino, live, j, outer, inner, disk, keep);
      } else {
        Drop(i, outer);
        EnsuredThere(d0, u0, node, live, ino, Inner(j), keep);
      }
    }

    /** Store v as the sector of block idx in its pointer block, which is in sector p.  The new data
        sector itself is zeroed by the caller. */
    method SetBlockPointer(ghost ino: nat, node: Sector, idx: nat, p: nat, v: nat) returns (node': Sector)
      requires Ready() && Seen(disk, Used(), live, ino, node) && idx < BLOCK_CNT
      requires At(disk[ino := node], ino, Data(idx)) == 0 && Owned(disk[ino := node], ino, Parent(Data(idx)))
      requires idx >= DIRECT_CNT ==> p == At(disk[ino := node], ino, Parent(Data(idx)))
      requires 2 <= v < |disk| && InUse(Used(), v) && Unowned(disk[ino := node], live, v)
      modifies this`disk, cache
      ensures Ready() && |disk| == |old(disk)| && v != ino
      ensures Stepped(old(disk), old(Used()), node, disk[v := ZeroSector()], Used(), node', live, ino)
      ensures At(disk[v := ZeroSector()][ino := node'], ino, Data(idx)) == v
      ensures SlotsExcept(old(disk)[ino := node], disk[v := ZeroSector()][ino := node'], ino, Data(idx))
    {
      ghost var d0, u := disk, Used();
      node' := node;
      PointerPlace(d0, u, live, ino, node, idx);
      hide Stepped, Seen, Unowned, At, Owned, CacheOk;
      if idx < DIRECT_CNT {
        node' := SetWord(node, idx, v);
        DirectLinked(d0, u, node, ino, live, idx, v, node');
      } else {
        Poke(p, Index(Data(idx)), v);
        SectorLinked(d0, u, node, ino, live, Data(idx), p, v, disk[v := ZeroSector()], 0);
      }
    }

    /** The outer and inner pointer blocks of a doubly indirect block. */
    method EnsureDoublyPath(ghost ino: nat, node: Sector, j: nat, ghost keep: nat)
      returns (node': Sector, p: nat, ok: bool)
      requires Ready() && Seen(disk, Used(), live, ino, node) && j < PTRS_PER_BLOCK
      requires InUse(Used(), keep) && Unowned(disk[ino := node], live, keep)
      modifies this`disk, this`bitmap, cache
      ensures Ready() && ino < |disk|
      ensures Ensured(old(disk), old(Used()), node, disk, Used(), node', live, ino, {Doubly, Inner(j)}, keep, ok)
      ensures ok ==> At(disk[ino := node'], ino, Inner(j)) == p
    {
      hide Stepped, Unowned, At, Seen, CacheOk, Ensured, Word;
      ghost var d0, u0 := disk, Used();
      p := 0;
      node', ok := EnsureInNode(ino, node, Doubly, keep);
      ghost var d1, u1, n1 := disk, Used(), node';
      if ok {
        EnsuredSeen(d0, u0, node, d1, u1, n1, live, ino, Doubly, keep);
        p, ok := EnsureInner(ino, node', j, keep);
        EnsuredBoth(d0, u0, node, d1, u1, n1, disk, Used(), node', live, ino, Doubly, Inner(j), keep, ok);
      } else {
        EnsuredFailed(d0, u0, node, d1, u1, n1, live, ino, Doubly, Inner(j), keep);
      }
    }

    /** The pointer blocks on the way to block idx, the last of them in sector p; keep is a sector
        reserved for the block. */
    method EnsurePath(ghost ino: nat, node: Sector, idx: nat, ghost keep: nat) returns (node': Sector, p: nat, ok: bool)
      requires Ready() && Seen(disk, Used(), live, ino, node) && idx < BLOCK_CNT
      requires InUse(Used(), keep) && Unowned(disk[ino := node], live, keep)
      modifies this`disk, this`bitmap, cache
      ensures Ready() && ino < |disk|
      ensures Ensured(old(disk), old(Used()), node, disk, Used(), node', live, ino, Tables(idx), keep, ok)
      ensures ok && idx >= DIRECT_CNT ==> p == At(disk[ino := node'], ino, Parent(Data(idx)))
    {
      hide Stepped, Unowned, At, Seen, CacheOk, Ensured, Word;
      SeenTree(disk, Used(), live, ino, node);
      p := 0;
      if idx < DIRECT_CNT {
        node', ok := node, true;
        EnsuredNone(disk, Used(), node, live, ino, keep);
      } else if idx < INDIRECT_END {
        node', ok := EnsureInNode(ino, node, Indirect, keep);
        p := Word(node', W_INDIRECT);
      } else {
        node', p, ok := EnsureDoublyPath(ino, node, (idx - INDIRECT_END) / PTRS_PER_BLOCK, keep);
      }
    }

    /** allocate_block_for: on success the block is linked and only its zeroing remains.  It succeeds
        exactly when as many sectors are free as are missing on the way to the block. */
    method AllocateBlockFor(ghost ino: nat, node: Sector, idx: nat) returns (node': Sector, r: Option<nat>)
      requires Ready() && Seen(disk, Used(), live, ino, node) && idx < BLOCK_CNT
      requires At(disk[ino := node], ino, Data(idx)) == 0
      modifies this`disk, this`bitmap, cache
      ensures Ready() && |disk| == |old(disk)| && ino < |disk|
      ensures r.None? ==> Allocated(old(disk), old(Used()), node, disk, Used(), node', live, ino, idx, false)
      ensures r.Some? ==> 2 <= r.value < |disk|
      ensures r.Some? ==> Allocated(old(disk), old(Used()), node, disk[r.value := ZeroSector()], Used(), node', live,
                                    ino, idx, true)
      ensures r.Some? ==> BlockIs(disk[r.value := ZeroSector()], ino, node', idx, r.value)
    {
      hide Stepped, Unowned, At, Owned, Seen, CacheOk, Ensured, Allocated, NoneFree;
      ghost var d0, u0 := disk, Used();
      node' := node;
      SeenTree(d0, u0, live, ino, node);
      r := AllocateOne();
      if r.None? {
        AllocatedNone(d0, u0, node, live, ino, idx);
        return;
      }
      var v := r.value;
      SeenFresh(d0, u0, live, ino, node, v);
      ghost var u1 := Used();
      var ok, p;
      node', p, ok := EnsurePath(ino, node, idx, v);
      ghost var d2, u2, n2 := disk, Used(), node';
      if !ok {
        AllocatedFailed(d0, u0, node, v, d2, u2, n2, live, ino, idx);
        return node', None;
      }
      EnsuredParent(d0, u1, node, d2, u2, n2, live, ino, idx, v);
      node' := SetBlockPointer(ino, node', idx, p, v);
      AllocatedLinked(d0, u0, node, v, d2, u2, n2, disk[v := ZeroSector()], node', live, ino, idx);
    }

    /** Ownership, files and open inodes are all in order. */
    ghost predicate Valid()
      reads this, cache
    {
      Ready() && Tree(disk, Used(), live) && FilesOk(disk, live) && OpenOk(disk, open, live)
    }

    /** The sector of block idx, allocated and zeroed if the file has none there. */
    method PrepareBlock(ghost ino: nat, node: Sector, idx: nat) returns (node': Sector, r: Option<nat>)
      requires Ready() && Seen(disk, Used(), live, ino, node) && idx < BLOCK_CNT
      modifies this`disk, this`bitmap, cache
      ensures Ready() && |disk| == |old(disk)| && ino < |disk|
      ensures Allocated(old(disk), old(Used()), node, disk, Used(), node', live, ino, idx, r.Some?)
      ensures r.Some? ==> r.value != 0 && At(disk[ino := node'], ino, Data(idx)) == r.value
    {
      hide Seen, Stepped, At, CacheOk, Allocated, PointersOk, GetBlockSector;
      node' := node;
      SeenTree(disk, Used(), live, ino, node);
      LookupIsAt(disk, Used(), live, ino, node, idx);
      SeenPointers(disk, Used(), live, ino, node);
      r := LookUp(node, idx);
      if r.None? {
        node', r := AllocateBlockFor(ino, node, idx);
        if r.Some? {
          Put(r.value, ZeroSector());
        }
      } else {
        AllocatedAlready(disk, Used(), node, live, ino, idx);
      }
    }

    /** One round of write_at's loop: n bytes are written, one chunk more is to go out. */
    method WriteChunk(ino: nat, node: Sector, buf: seq<Byte>, n: nat, chunk: nat, offset: nat, ghost d0: Disk)
      returns (node': Sector, ok: bool)
      requires n + chunk <= |buf| && Ready()
      requires Seen(disk, Used(), live, ino, node) && Writing(d0, disk[ino := node], live, ino, offset, buf[..n])
      requires offset + n + chunk <= MAX_BYTES && 0 < chunk && (offset + n) % SECTOR_SIZE + chunk <= SECTOR_SIZE
      modifies this`disk, this`bitmap, cache
      ensures Ready() && |disk| == |old(disk)| && Seen(disk, Used(), live, ino, node')
      ensures Writing(d0, disk[ino := node'], live, ino, offset, buf[..if ok then n + chunk else n])
      ensures Paid(old(disk)[ino := node], old(Used()), disk[ino := node'], Used(), ino, (offset + n) / SECTOR_SIZE, ok)
    {
      hide Tree, Writing, Stepped, Grown, CacheOk, Allocated, Seen, At, Paid;
      ghost var d1, u1 := disk, Used();
      var r;
      node', r := PrepareBlock(ino, node, (offset + n) / SECTOR_SIZE);
      ok := r.Some?;
      ghost var e1 := disk[ino := node'];
      AllocatedBlocks(d1, u1, node, disk, Used(), node', live, ino, (offset + n) / SECTOR_SIZE, ok);
      AllocatedPaid(d1, u1, node, disk, Used(), node', live, ino, (offset + n) / SECTOR_SIZE, ok);
      SteppedGrown(d1, u1, node, disk, Used(), node', live, ino);
      if ok {
        assert buf[..n + chunk] == buf[..n] + buf[n..n + chunk];
        RealRound(d0, d1[ino := node], disk, Used(), live, ino, node', offset, buf[..n], buf[n..n + chunk], r.value);
        Patch(r.value, (offset + n) % SECTOR_SIZE, buf[n..n + chunk]);
        PaidSame(d1[ino := node], u1, e1, disk[ino := node'], Used(), ino, (offset + n) / SECTOR_SIZE);
      } else {
        WritingSame(d0, d1[ino := node], disk[ino := node'], live, ino, offset, buf[..n]);
      }
    }

    /** The loop of write_at: chunk by chunk until done or out of space.  It gets through exactly when
        there are as many free sectors as the blocks it touches are missing. */
    method WriteChunks(ino: nat, buf: seq<Byte>, size: nat, offset: nat) returns (n: nat, node: Sector)
      requires Ready() && Tree(disk, Used(), live) && ino in live
      requires size <= |buf| && offset + size <= MAX_BYTES
      modifies this`disk, this`bitmap, cache
      ensures Ready() && |disk| == |old(disk)| && n <= size
      ensures Seen(disk, Used(), live, ino, node) && Writing(old(disk), disk[ino := node], live, ino, offset, buf[..n])
      ensures n < size ==> NoneFree(Used())
      ensures n == size <==> Need(old(disk), ino, Touched(offset, size)) <= FreeCount(old(Used()))
      ensures n == size ==> FreeCount(Used()) + Need(old(disk), ino, Touched(offset, size)) == FreeCount(old(Used()))
      ensures ino < |disk| && SameOutside(old(disk), disk[ino := node], ino, Touched(offset, size))
    {
      hide Tree, Writing, CacheOk, Seen, OnBudget, Need, FreeCount, Touched, Paid, NoneFree, At;
      ghost var d0, u0 := disk, Used();
      WritingStart(disk, Used(), live, ino, offset);
      BudgetStart(d0, u0, ino, offset, size);
      node := Get(ino);
      n := 0;
      assert buf[..0] == [];
      while n < size
        invariant Ready() && |disk| == |d0| && n <= size
        invariant Seen(disk, Used(), live, ino, node) && Writing(d0, disk[ino := node], live, ino, offset, buf[..n])
        invariant OnBudget(d0, u0, disk[ino := node], Used(), ino, offset, size, n)
        invariant SameOutside(d0, disk[ino := node], ino, Touched(offset, size))
      {
        var chunk := Min(SECTOR_SIZE - (offset + n) % SECTOR_SIZE, size - n);
        ghost var e, u := disk[ino := node], Used();
        var ok;
        node, ok := WriteChunk(ino, node, buf, n, chunk, offset, d0);
        BudgetNext(d0, u0, e, u, disk[ino := node], Used(), ino, offset, size, n, chunk, ok);
        if !ok { return; }
        n := n + chunk;
      }
      BudgetKept(d0, u0, disk[ino := node], Used(), ino, offset, size);
    }

    /** The end of write_at: the inode goes to disk with its new length. */
    method FinishWrite(ino: nat, node0: Sector, offset: nat, n: nat, ghost d0: Disk, ghost data: seq<Byte>)
      requires Ready() && |disk| == |d0| && |data| == n && offset + n <= MAX_BYTES
      requires Seen(disk, Used(), live, ino, node0) && Writing(d0, disk[ino := node0], live, ino, offset, data)
      requires FilesOk(d0, live) && OpenOk(d0, open, live)
      modifies this`disk, this`open, cache
      ensures Valid() && Used() == old(Used()) && Wrote(d0, disk, live, ino, offset, data) &&
              SameHandles(old(open), open)
      ensures ino < |disk| && SameOutside(old(disk)[ino := node0], disk, ino, {})
    {
      hide Tree, Seen, Writing, OpenOk, FilesOk, WithLength, Word, Wrote, CacheOk, SameOutside;
      var node := if offset + n > Word(node0, W_LENGTH) then WithLength(node0, offset + n) else node0;
      InodeStored(d0, disk, Used(), live, open, ino, offset, data, node0, node);
      LengthStored(disk, Used(), live, ino, node0, node, offset + n);
      Put(ino, node);
      if ino in open {
        open := open[ino := open[ino].(length := Word(node, W_LENGTH))];
      }
    }

    /** write_at.  The file becomes its old contents, zero-padded to the offset and overwritten
        with exactly the bytes reported; every other file is untouched; and the write is complete
        exactly when writes are not denied and as many sectors are free as the blocks it touches
        are missing. */
    method WriteAt(ino: nat, buf: seq<Byte>, size: int, offset: nat) returns (n: int)
      requires Valid() && ino in live
      requires size <= |buf| && offset + size <= MAX_BYTES && offset <= MAX_BYTES
      modifies this`disk, this`bitmap, this`open, cache
      ensures Valid() && |disk| == |old(disk)| && ino < |disk|
      ensures 0 <= n && (n <= size || n == 0)
      ensures Denied(old(open), ino) ==> n == 0 && disk == old(disk) && bitmap == old(bitmap) && open == old(open)
      ensures !Denied(old(open), ino) ==> Contents(disk, ino) == Written(old(Contents(disk, ino)), offset, buf[..n])
      ensures !Denied(old(open), ino) && n < size ==> NoneFree(Used())
      ensures size > 0 ==>
                (n == size <==>
                 !Denied(old(open), ino) && Need(old(disk), ino, Touched(offset, size)) <= FreeCount(old(Used())))
      ensures size > 0 && n == size ==>
                FreeCount(Used()) + Need(old(disk), ino, Touched(offset, size)) == FreeCount(old(Used()))
      ensures size > 0 ==> SameOutside(old(disk), disk, ino, Touched(offset, size))
      ensures IsDir(disk, ino) == old(IsDir(disk, ino)) && cache.disk == disk
      ensures forall o :: o in live && o != ino ==> SameFile(old(disk), disk, o)
      ensures SameHandles(old(open), open)
    {
      ghost var d0 := disk;
      LiveInRange(disk, Used(), live, ino);
      SameFileRefl(disk, Used(), live);
      hide Tree, FilesOk, OpenOk, Contents, IsDir, CacheOk;
      if ino in open && open[ino].denyWriteCnt > 0 { return 0; }
      var node;
      n, node := WriteChunks(ino, buf, if size < 0 then 0 else size, offset);
      FinishWrite(ino, node, offset, n, d0, buf[..n]);
    }

    /** An inode whose blocks are on the disk and whose length is known in memory. */
    ghost predicate Readable(ino: nat)
      reads this
    {
      InRange(disk, ino) && Fits(disk, ino, Len(disk, ino)) && (ino in open ==> open[ino].length == Len(disk, ino))
    }

    lemma LiveReadable(ino: nat)
      requires Valid() && ino in live
      ensures Readable(ino)
    {
      TreeInRange(disk, Used(), live, ino);
    }

    /** length. */
    method Length(ino: nat) returns (len: nat)
      requires Ready() && Readable(ino)
      modifies cache
      ensures Ready() && len == Len(disk, ino)
    {
      hide CacheOk;
      if ino in open { return open[ino].length; }
      var node := Get(ino);
      return Word(node, W_LENGTH);
    }

    static method CopyIn(buf: array<Byte>, at: nat, bytes: seq<Byte>)
      requires at + |bytes| <= buf.Length
      modifies buf
      ensures buf[..] == Splice(old(buf[..]), at, bytes)
    {
      for i := 0 to |bytes|
        invariant forall k :: 0 <= k < buf.Length ==> buf[k] == if at <= k < at + i then bytes[k - at] else old(buf[k])
      {
        buf[at + i] := bytes[i];
      }
    }

    /** One chunk of read_at: bytes of one block, or zeros where the file has a hole. */
    method ReadChunk(ino: nat, node: Sector, buf: array<Byte>, at: nat, chunk: nat, off: nat)
      requires Ready() && InRange(disk, ino) && node == disk[ino]
      requires at + chunk <= buf.Length && off + chunk <= MAX_BYTES && off % SECTOR_SIZE + chunk <= SECTOR_SIZE &&
               0 < chunk
      modifies buf, cache
      ensures Ready()
      ensures forall i :: 0 <= i < buf.Length && (i < at || at + chunk <= i) ==> buf[i] == old(buf[i])
      ensures forall i :: at <= i < at + chunk ==> buf[i] == ByteAt(disk, ino, off + (i - at))
    {
      hide At, GetBlockSector, ByteAt, CacheOk, InRange, PointersOk;
      var idx, ofs := off / SECTOR_SIZE, off % SECTOR_SIZE;
      BlockLookup(disk, ino, idx);
      RangePointers(disk, ino);
      var r := LookUp(node, idx);
      var data := ZeroSector();
      if r.Some? { data := Get(r.value); }
      var bytes := data[ofs..ofs + chunk];
      CopyIn(buf, at, bytes);
      forall i | at <= i < at + chunk ensures buf[i] == ByteAt(disk, ino, off + (i - at)) {
        ByteInBlock(disk, ino, off, i - at);
        assert buf[i] == bytes[i - at];
      }
    }

    /** The loop of read_at. */
    method ReadChunks(ino: nat, buf: array<Byte>, size: int, offset: nat, len: nat) returns (n: nat)
      requires Ready() && InRange(disk, ino) && size <= buf.Length && offset < len <= MAX_BYTES
      modifies buf, cache
      ensures Ready()
      ensures n == (if size <= 0 then 0 else Min(size, len - offset)) <= buf.Length
      ensures forall i :: 0 <= i < n ==> buf[i] == ByteAt(disk, ino, offset + i)
      ensures forall i :: n <= i < buf.Length ==> buf[i] == old(buf[i])
    {
      hide ByteAt, CacheOk;
      var node := Get(ino);
      n := 0;
      while n < size && offset + n < len
        invariant Ready() && n <= buf.Length && (n == 0 || n <= size) && offset + n <= len
        invariant forall i :: 0 <= i < n ==> buf[i] == ByteAt(disk, ino, offset + i)
        invariant forall i :: n <= i < buf.Length ==> buf[i] == old(buf[i])
      {
        var chunk := Min(SECTOR_SIZE - (offset + n) % SECTOR_SIZE, Min(len - (offset + n), size - n));
        ReadChunk(ino, node, buf, n, chunk, offset + n);
        forall i | n <= i < n + chunk ensures buf[i] == ByteAt(disk, ino, offset + i) {
          assert offset + n + (i - n) == offset + i;
        }
        n := n + chunk;
      }
    }

    /** read_at returns exactly the stored slice. */
    method ReadAt(ino: nat, buf: array<Byte>, size: int, offset: nat) returns (n: nat)
      requires Ready() && Readable(ino) && size <= buf.Length
      modifies buf, cache
      ensures Ready()
      ensures n == if offset >= Len(disk, ino) || size <= 0 then 0 else Min(size, Len(disk, ino) - offset)
      ensures n <= buf.Length && (n > 0 ==>
                                  Len(disk, ino) <= MAX_BYTES && buf[..n] == Contents(disk, ino)[offset..offset + n])
      ensures buf[n..] == old(buf[n..])
    {
      hide ByteAt, CacheOk, InRange;
      var len := Length(ino);
      if offset >= len { return 0; }
      n := ReadChunks(ino, buf, size, offset, len);
    }

    /** is_dir. */
    method IsDirectory(ino: nat) returns (b: bool)
      requires Ready() && ino < |disk| && (ino in open ==> open[ino].isDir == IsDir(disk, ino))
      modifies cache
      ensures Ready() && b == IsDir(disk, ino)
    {
      hide CacheOk;
      if ino in open { return open[ino].isDir; }
      var node := Get(ino);
      return node[DIR_BYTE] != 0;
    }

    /** The data blocks of an inode are released. */
    method FreeData(ghost ino: nat, node: Sector, cnt: nat, ghost u0: seq<bool>) returns (ghost freed: set<nat>)
      requires Ready() && InRange(disk, ino) && node == disk[ino] && cnt <= BLOCK_CNT && u0 == Used()
      modifies this`bitmap, cache
      ensures Ready() && Freeing(disk, ino, u0, Used(), freed)
      ensures forall k :: 0 <= k < cnt && Owned(disk, ino, Data(k)) ==> At(disk, ino, Data(k)) in freed
    {
      hide Holds, At, CacheOk, InRange, Freeing, PointersOk, GetBlockSector;
      freed := {};
      RangePointers(disk, ino);
      FreeingNone(disk, ino, u0);
      for i := 0 to cnt
        invariant Ready() && Freeing(disk, ino, u0, Used(), freed)
        invariant forall k :: 0 <= k < i && Owned(disk, ino, Data(k)) ==> At(disk, ino, Data(k)) in freed
      {
        BlockLookup(disk, ino, i);
        var r := LookUp(node, i);
        if r.Some? {
          assert Owned(disk, ino, Data(i));
          FreeingOne(disk, ino, u0, Used(), freed, Data(i));
          Release(r.value);
          freed := freed + {r.value};
        }
      }
    }

    /** The inner pointer blocks are released, with the outer sector held all the while. */
    method FreeInners(ghost ino: nat, outer: nat, ghost u0: seq<bool>, ghost freed0: set<nat>)
      returns (ghost freed: set<nat>)
      requires Ready() && InRange(disk, ino) && Owned(disk, ino, Doubly) && At(disk, ino, Doubly) == outer
      requires Freeing(disk, ino, u0, Used(), freed0)
      modifies this`bitmap, cache
      ensures Ready() && Freeing(disk, ino, u0, Used(), freed) && freed0 <= freed
      ensures forall j :: 0 <= j < PTRS_PER_BLOCK && Owned(disk, ino, Inner(j)) ==> At(disk, ino, Inner(j)) in freed
    {
      hide Holds, At, Freeing, CacheOk, HoldOk, InRange;
      freed := freed0;
      PointerWords(disk, ino);
      var i, data := Hold(outer);
      for j := 0 to PTRS_PER_BLOCK
        invariant Sized() && Holding(i, outer) && Freeing(disk, ino, u0, Used(), freed) && freed0 <= freed
        invariant forall k :: 0 <= k < j && Owned(disk, ino, Inner(k)) ==> At(disk, ino, Inner(k)) in freed
      {
        var p := Word(data, j);
        InnerWord(disk, ino, j);
        if p != 0 {
          FreeingOne(disk, ino, u0, Used(), freed, Inner(j));
          Release(p);
          freed := freed + {p};
        }
      }
      Drop(i, outer);
    }

    /** The pointer blocks of an inode are released: indirect, inner, doubly indirect. */
    method FreePointerBlocks(ghost ino: nat, node: Sector, ghost u0: seq<bool>, ghost freed0: set<nat>)
      returns (ghost freed: set<nat>)
      requires Ready() && InRange(disk, ino) && node == disk[ino] && Freeing(disk, ino, u0, Used(), freed0)
      modifies this`bitmap, cache
      ensures Ready() && Freeing(disk, ino, u0, Used(), freed) && freed0 <= freed
      ensures forall s :: s != Self && !s.Data? && Owned(disk, ino, s) ==> At(disk, ino, s) in freed
    {
      hide Holds, At, Freeing, CacheOk, InRange;
      freed := freed0;
      PointerWords(disk, ino);
      if Word(node, W_INDIRECT) != 0 {
        FreeingOne(disk, ino, u0, Used(), freed, Indirect);
        Release(Word(node, W_INDIRECT));
        freed := freed + {Word(node, W_INDIRECT)};
      }
      var outer := Word(node, W_DOUBLY);
      if outer != 0 {
        freed := FreeInners(ino, outer, u0, freed);
        FreeingOne(disk, ino, u0, Used(), freed, Doubly);
        Release(outer);
        freed := freed + {outer};
      }
    }

    /** All blocks of the inode are released, and nothing else. */
    method FreeBlocks(ghost ino: nat, node: Sector, cnt: nat)
      requires Ready() && InRange(disk, ino) && node == disk[ino] && cnt <= BLOCK_CNT
      requires forall k: nat :: Owned(disk, ino, Data(k)) ==> k < cnt
      modifies this`bitmap, cache
      ensures Ready() && Freed(disk, old(Used()), ino, false, Used())
    {
      hide CacheOk;
      ghost var u0 := Used();
      ghost var freed := FreeData(ino, node, cnt, u0);
      hide Freeing, At, Holds, InRange;
      freed := FreePointerBlocks(ino, node, u0, freed);
      FreeingDone(disk, ino, u0, Used(), freed);
    }

    /** truncate: the file becomes empty, exactly its blocks are freed, no other file changes. */
    method Truncate(ino: nat)
      requires Valid() && ino in live
      modifies this`disk, this`bitmap, this`open, cache
      ensures Valid() && |disk| == |old(disk)| && ino < |disk|
      ensures Contents(disk, ino) == [] && IsDir(disk, ino) == old(IsDir(disk, ino)) && cache.disk == disk
      ensures Freed(old(disk), old(Used()), ino, false, Used())
      ensures forall o :: o in live && o != ino ==> SameFile(old(disk), disk, o)
      ensures SameHandles(old(open), open)
    {
      hide Tree, Freed, FreshInode, SameFile, CacheOk, Fits, IsDir, Word, InRange, FilesOk, OpenOk;
      ghost var d0, u0 := disk, Used();
      TruncateStart(d0, u0, live, open, ino);
      var len := Length(ino);
      FitsCount(disk, ino, len);
      var node := Get(ino);
      FreeBlocks(ino, node, BytesToSectors(len));
      var isDir := IsDirectory(ino);
      var n := FreshInode(0, isDir);
      TruncatedFile(d0, u0, live, open, ino, n, isDir, Used());
      Put(ino, n);
      if ino in open {
        open := open[ino := open[ino].(length := 0)];
      }
    }

    method Open(ino: nat)
      requires Valid() && ino in live
      modifies this`open, cache
      ensures Valid() && open.Keys == old(open).Keys + {ino}
      ensures forall o :: o in old(open) && o != ino ==> open[o] == old(open)[o]
      ensures ino in old(open) ==> open[ino] == old(open)[ino].(openCnt := old(open)[ino].openCnt + 1)
      ensures ino !in old(open) ==> !open[ino].removed && open[ino].openCnt == 1 && open[ino].denyWriteCnt == 0
    {
      hide CacheOk, Tree, FilesOk;
      LiveInRange(disk, Used(), live, ino);
      if ino in open {
        open := open[ino := open[ino].(openCnt := open[ino].openCnt + 1)];
      } else {
        var node := Get(ino);
        open := open[ino := OpenInode(1, false, 0, Word(node, W_LENGTH), node[DIR_BYTE] != 0)];
      }
    }

    /** free_map::open: the bitmap is overwritten with what the file in sector 0 holds.  When that
        marks every sector of the inodes on the disk, the file system is in order with all of them. */
    method OpenFreeMap(ghost inodes: set<nat>)
      requires Ready() && open == map[] && live == {} && Readable(FREE_MAP_SECTOR) && FREE_MAP_SECTOR in inodes
      requires FilesOk(disk, inodes) && |bitmap| == Len(disk, FREE_MAP_SECTOR)
      requires Tree(disk, View(Contents(disk, FREE_MAP_SECTOR), |disk|), inodes)
      modifies this`bitmap, this`open, this`live, cache
      ensures Valid() && bitmap == Contents(disk, FREE_MAP_SECTOR) && live == inodes && open.Keys == {FREE_MAP_SECTOR}
    {
      hide Tree, FilesOk, View, CacheOk;
      var node := Get(FREE_MAP_SECTOR);
      open := open[FREE_MAP_SECTOR := OpenInode(1, false, 0, Word(node, W_LENGTH), node[DIR_BYTE] != 0)];
      var data := new Byte[|bitmap|](_ => 0);
      var n := ReadAt(FREE_MAP_SECTOR, data, |bitmap|, 0);
      if n > 0 {
        bitmap := data[..n] + bitmap[n..];
      }
      assert bitmap == Contents(disk, FREE_MAP_SECTOR);
      live := inodes;
    }

    /** remove only marks an open inode. */
    method Remove(ino: nat)
      requires Valid()
      modifies this`open
      ensures Valid() && open == if ino in old(open) then old(open)[ino := old(open)[ino].(removed := true)]
              else old(open)
    {
      if ino in open { open := open[ino := open[ino].(removed := true)]; }
    }

    method DenyWrite(ino: nat)
      requires Valid()
      modifies this`open
      ensures Valid()
      ensures ino in old(open) ==>
                open == old(open)[ino := old(open)[ino].(denyWriteCnt := old(open)[ino].denyWriteCnt + 1)]
      ensures ino !in old(open) ==> open == old(open)
    {
      if ino in open { open := open[ino := open[ino].(denyWriteCnt := open[ino].denyWriteCnt + 1)]; }
    }

    method AllowWrite(ino: nat)
      requires Valid()
      modifies this`open
      ensures Valid()
      ensures Denied(old(open), ino) ==>
                open == old(open)[ino := old(open)[ino].(denyWriteCnt := old(open)[ino].denyWriteCnt - 1)]
      ensures !Denied(old(open), ino) ==> open == old(open)
    {
      if ino in open && open[ino].denyWriteCnt > 0 {
        open := open[ino := open[ino].(denyWriteCnt := open[ino].denyWriteCnt - 1)];
      }
    }

    /** One data sector of create: allocated and zeroed, and linked if a direct slot takes it. */
    method CreateBlock(ghost ino: nat, node: Sector, i: nat, ghost all: set<nat>) returns (node': Sector, ok: bool)
      requires Ready() && Seen(disk, Used(), all, ino, node) && i < BLOCK_CNT &&
               At(disk[ino := node], ino, Data(i)) == 0
      modifies this`disk, this`bitmap, cache
      ensures Ready() && Stepped(old(disk), old(Used()), node, disk, Used(), node', all, ino)
      ensures SameBlocksBut(old(disk)[ino := node], disk[ino := node'], ino, i)
      ensures Spent(old(Used()), Used(), 1, ok)
    {
      ghost var d0, u0 := disk, Used();
      node', ok := node, true;
      var r := AllocateOne();
      SpentOne(u0, Used(), r);
      SteppedSelf(d0, u0, node, Used(), all, ino);
      hide Seen, Stepped, At, CacheOk;
      if r.None? { ok := false; return; }
      var s := r.value;
      if i < DIRECT_CNT {
        node' := SetWord(node, i, s);
        CreateLinked(d0, u0, node, ino, all, i, s, node');
      } else {
        LeakedStep(d0, u0, all, ino, node, s);
      }
      Put(s, ZeroSector());
    }

    /** create: the new inode is a file of length zeros; on failure nothing but free space is lost. */
    method Create(ino: nat, length: nat, isDir: bool) returns (ok: bool)
      requires Valid() && ino !in live && InUse(Used(), ino) && Unowned(disk, live, ino) && length <= MAX_BYTES
      modifies this`disk, this`bitmap, this`live, cache
      ensures Valid() && |disk| == |old(disk)| && cache.disk == disk
      ensures ok ==> live == old(live) + {ino}
      ensures ok ==> Contents(disk, ino) == seq(length, _ => 0) && IsDir(disk, ino) == isDir
      ensures !ok ==> live == old(live) && NoneFree(Used())
      ensures ok <==> BytesToSectors(length) <= FreeCount(old(Used()))
      ensures ok ==> FreeCount(Used()) + BytesToSectors(length) == FreeCount(old(Used()))
      ensures forall o :: o in old(live) ==> SameFile(old(disk), disk, o)
    {
      hide Seen, Stepped, FreshInode, Tree, CacheOk, Creating, OpenOk, FilesOk, Unowned, SameFile, Contents, IsDir,
          NoneFree, InUse, FreeCount;
      ghost var d0, u0, all := disk, Used(), live + {ino};
      var node := FreshInode(length, isDir);
      ghost var n0 := node;
      CreateStart(disk, Used(), live, ino, length, isDir);
      for i := 0 to BytesToSectors(length)
        invariant Ready() && live == old(live) && |disk| == |d0|
        invariant Creating(d0, u0, n0, disk, Used(), node, all, ino, i) && FreeCount(Used()) + i == FreeCount(u0)
      {
        ghost var d1, u1, n1 := disk, Used(), node;
        CreatingSeen(d0, u0, n0, d1, u1, n1, all, ino, i);
        node, ok := CreateBlock(ino, node, i, all);
        CreateRound(d0, u0, n0, d1, u1, n1, disk, Used(), node, all, ino, i);
        if !ok {
          CreateFailed(d0, u0, n0, disk, Used(), node, live, open, ino, i + 1);
          return;
        }
      }
      CreateDone(d0, u0, n0, disk, Used(), node, live, open, ino, length, isDir);
      Put(ino, node);
      live := all;
      ok := true;
    }

    /** close: the last handle of a removed inode frees the inode sector and exactly its blocks. */
    method Close(ino: nat)
      requires Valid()
      modifies this`bitmap, this`open, this`live, cache
      ensures Valid()
      ensures ino !in old(open) ==> open == old(open) && bitmap == old(bitmap) && live == old(live)
      ensures ino in old(open) && old(open)[ino].openCnt > 1 ==>
                open == old(open)[ino := old(open)[ino].(openCnt := old(open)[ino].openCnt - 1)] &&
                    bitmap == old(bitmap) && live == old(live)
      ensures ino in old(open) && old(open)[ino].openCnt <= 1 ==> open == old(open) - {ino}
      ensures ino in old(open) && old(open)[ino].openCnt <= 1 && !old(open)[ino].removed ==>
              bitmap == old(bitmap) && live == old(live)
      ensures ino in old(open) && old(open)[ino].openCnt <= 1 && old(open)[ino].removed ==>
                live == old(live) - {ino} && Freed(disk, old(Used()), ino, true, Used())
    {
      hide CacheOk, Tree, FilesOk, OpenOk, Freed;
      CloseStart(disk, Used(), live, open, ino);
      if ino !in open { return; }
      var entry := open[ino].(openCnt := open[ino].openCnt - 1);
      if entry.openCnt > 0 {
        open := open[ino := entry];
        return;
      }
      open := open - {ino};
      if entry.removed {
        ghost var u0 := Used();
        Release(ino);
        var node := Get(ino);
        FreeBlocks(ino, node, BytesToSectors(entry.length));
        CloseDone(disk, u0, live, open, ino, Used());
        live := live - {ino};
      }
    }
  }

  /** Block idx of the inode in memory is in sector v. */
  ghost predicate BlockIs(d: Disk, ino: nat, node: Sector, idx: nat, v: nat)
  {
    ino < |d| && idx < BLOCK_CNT && At(d[ino := node], ino, Data(idx)) == v
  }

  lemma SpentOne(u: seq<bool>, u': seq<bool>, r: Option<nat>)
    requires r.Some? ==> 2 <= r.value < |u| && !u[r.value] && u' == u[r.value := true]
    requires r.None? ==> u' == u && NoneFree(u)
    ensures Spent(u, u', 1, r.Some?)
  {
    hide FreeCount;
    if r.Some? { FreeCountLess(u, r.value); } else { FreeCountZero(u); }
  }

  lemma NodeSlot(d: Disk, u: seq<bool>, live: set<nat>, ino: nat, node: Sector, m: Slot)
    requires Seen(d, u, live, ino, node) && (m == Indirect || m == Doubly)
    ensures ino < |d| && At(d[ino := node], ino, m) == Word(node, Index(m))
  {}

  lemma NodeEnsured(d: Disk, u: seq<bool>, n: Sector, ino: nat, live: set<nat>, m: Slot, v: nat, n': Sector, keep: nat)
    requires Seen(d, u, live, ino, n) && (m == Indirect || m == Doubly) && At(d[ino := n], ino, m) == 0
    requires 2 <= v < |d| && !u[v] && n' == SetWord(n, Index(m), v) && InUse(u, keep) &&
             Unowned(d[ino := n], live, keep)
    ensures ino < |d| && Ensured(d, u, n, d[v := ZeroSector()], u[v := true], n', live, ino, {m}, keep, true)
    ensures At(d[v := ZeroSector()][ino := n'], ino, m) == Word(n', Index(m))
  {
    NodeLinked(d, u, n, ino, live, m, v, d[v := ZeroSector()], n', keep);
    WordOfSetWord(n, Index(m), v, Index(m));
    hide Seen, Stepped, At, Ensured, Unowned;
    EnsuredLinked(d, u, n, d[v := ZeroSector()], n', live, ino, m, v, keep);
  }

  lemma InnerEnsured(d: Disk, u: seq<bool>, n: Sector, ino: nat, live: set<nat>, j: nat, outer: nat, v: nat,
                     d': Disk, keep: nat)
    requires Seen(d, u, live, ino, n) && j < PTRS_PER_BLOCK && 2 <= v < |d| && !u[v] && outer < |d|
    requires At(d[ino := n], ino, Inner(j)) == 0 && At(d[ino := n], ino, Doubly) == outer && outer != 0
    requires d' == d[outer := SetWord(d[outer], j, v)][v := ZeroSector()]
    requires InUse(u, keep) && Unowned(d[ino := n], live, keep)
    ensures ino < |d| && Ensured(d, u, n, d', u[v := true], n, live, ino, {Inner(j)}, keep, true)
    ensures At(d'[ino := n], ino, Inner(j)) == v
  {
    InnerLinked(d, u, n, ino, live, j, outer, v, d', keep);
    hide Seen, Stepped, At, Ensured, Unowned;
    EnsuredLinked(d, u, n, d', n, live, ino, Inner(j), v, keep);
  }

  lemma EnsuredSeen(d: Disk, u: seq<bool>, n: Sector, d': Disk, u': seq<bool>, n': Sector, live: set<nat>, ino: nat,
                    t: Slot, keep: nat)
    requires Ensured(d, u, n, d', u', n', live, ino, {t}, keep, true) && ValidSlot(t)
    ensures Seen(d', u', live, ino, n') && ino < |d'| && InUse(u', keep) && Unowned(d'[ino := n'], live, keep) &&
            At(d'[ino := n'], ino, t) != 0
  {
    hide At, Unowned, Need, FreeCount;
  }

  lemma SeenPointers(d: Disk, u: seq<bool>, live: set<nat>, ino: nat, node: Sector)
    requires Seen(d, u, live, ino, node)
    ensures PointersOk(d, node)
  {
    var e := d[ino := node];
    SeenSlot(d, u, live, ino, node, Indirect);
    SeenSlot(d, u, live, ino, node, Doubly);
    if Word(node, W_DOUBLY) != 0 {
      forall j | 0 <= j < PTRS_PER_BLOCK ensures Word(d[Word(node, W_DOUBLY)], j) < |d| {
        OuterWord(d, u, live, ino, node, j);
        SeenSlot(d, u, live, ino, node, Inner(j));
      }
    }
  }

  lemma SeenSlot(d: Disk, u: seq<bool>, live: set<nat>, ino: nat, node: Sector, s: Slot)
    requires Seen(d, u, live, ino, node) && ValidSlot(s) && s != Self
    ensures At(d[ino := node], ino, s) < |d|
    ensures Parent(s) == Self ==> At(d[ino := node], ino, s) == Word(node, Index(s))
  {
    if At(d[ino := node], ino, s) != 0 { UsedAt(d[ino := node], u, live, ino, s); }
    else { UsedAt(d[ino := node], u, live, ino, Self); }
  }

  lemma FreeingNone(d: Disk, ino: nat, u: seq<bool>)
    ensures Freeing(d, ino, u, u, {})
  {}

  lemma RangePointers(d: Disk, ino: nat)
    requires InRange(d, ino)
    ensures PointersOk(d, d[ino])
  {
    PointerWords(d, ino);
    if Word(d[ino], W_DOUBLY) != 0 {
      forall j | 0 <= j < PTRS_PER_BLOCK ensures Word(d[Word(d[ino], W_DOUBLY)], j) < |d| { InnerWord(d, ino, j); }
    }
  }

  /** No data block from index i on. */
  ghost predicate NoneFrom(d: Disk, ino: nat, i: nat)
  {
    forall k :: i <= k < BLOCK_CNT ==> At(d, ino, Data(k)) == 0
  }

  lemma CreateLinked(d0: Disk, u0: seq<bool>, n0: Sector, ino: nat, live: set<nat>, i: nat, v: nat, n1: Sector)
    requires Seen(d0, u0, live, ino, n0) && i < DIRECT_CNT && At(d0[ino := n0], ino, Data(i)) == 0 &&
             2 <= v < |d0| && !u0[v]
    requires n1 == SetWord(n0, i, v)
    ensures Stepped(d0, u0, n0, d0[v := ZeroSector()], u0[v := true], n1, live, ino)
    ensures SameBlocksBut(d0[ino := n0], d0[v := ZeroSector()][ino := n1], ino, i)
  {
    SeenFresh(d0, u0, live, ino, n0, v);
    var u := u0[v := true];
    SteppedSelf(d0, u0, n0, u, live, ino);
    DirectLinked(d0, u, n0, ino, live, i, v, n1);
    SteppedTrans(d0, u0, n0, d0, u, n0, d0[v := ZeroSector()], u, n1, live, ino);
    hide Stepped, Seen, At;
  }

  /** create after i of its blocks: none from i on is linked. */
  ghost predicate Creating(d0: Disk, u0: seq<bool>, n0: Sector, d: Disk, u: seq<bool>, node: Sector, all: set<nat>,
                           ino: nat, i: nat)
  {
    Stepped(d0, u0, n0, d, u, node, all, ino) && NoneFrom(d[ino := node], ino, i)
  }

  lemma CreateStart(d: Disk, u: seq<bool>, live: set<nat>, ino: nat, length: nat, isDir: bool)
    requires Tree(d, u, live) && InUse(u, ino) && Unowned(d, live, ino) && ino !in live && length <= MAX_BYTES
    ensures ino < |d| && BytesToSectors(length) <= BLOCK_CNT
    ensures var n := FreshInode(length, isDir); Creating(d, u, n, d, u, n, live + {ino}, ino, 0)
  {
    FreshInodeFacts(length, isDir);
    var n := FreshInode(length, isDir);
    NewInodeTree(d, u, live, ino, n);
    hide FreshInode, At;
    SteppedSelf(d, u, n, u, live + {ino}, ino);
  }

  lemma CreatingSeen(d0: Disk, u0: seq<bool>, n0: Sector, d: Disk, u: seq<bool>, node: Sector, all: set<nat>,
                     ino: nat, i: nat)
    requires Creating(d0, u0, n0, d, u, node, all, ino, i) && i < BLOCK_CNT
    ensures Seen(d, u, all, ino, node) && ino < |d| && At(d[ino := node], ino, Data(i)) == 0
  {
    hide At;
  }

  lemma CreateRound(d0: Disk, u0: seq<bool>, n0: Sector, d1: Disk, u1: seq<bool>, n1: Sector, d: Disk, u: seq<bool>,
                    node: Sector,
                    all: set<nat>, ino: nat, i: nat)
    requires Creating(d0, u0, n0, d1, u1, n1, all, ino, i) && Stepped(d1, u1, n1, d, u, node, all, ino)
    requires SameBlocksBut(d1[ino := n1], d[ino := node], ino, i)
    ensures |d| == |d0| && Creating(d0, u0, n0, d, u, node, all, ino, i + 1)
  {
    SteppedTrans(d0, u0, n0, d1, u1, n1, d, u, node, all, ino);
    hide At, Seen, Grown;
  }

  lemma CreateFailed(d0: Disk, u0: seq<bool>, n0: Sector, d: Disk, u: seq<bool>, node: Sector, live: set<nat>,
                     open: map<nat, OpenInode>, ino: nat, i: nat)
    requires Tree(d0, u0, live) && InUse(u0, ino) && Unowned(d0, live, ino) && ino !in live
    requires Creating(d0, u0, n0, d, u, node, live + {ino}, ino, i)
    requires FilesOk(d0, live) && OpenOk(d0, open, live)
    ensures Tree(d, u, live) && FilesOk(d, live) && OpenOk(d, open, live)
    ensures forall o :: o in live ==> SameFile(d0, d, o)
  {
    TreeNew(d0, u0, live, ino, n0);
    Abandon(d0, d, u, live, ino, n0, node);
    hide Tree, Stepped, Unowned;
    SameFilesOk(d0, d, live, open);
  }

  lemma SameFilesOk(d0: Disk, d: Disk, live: set<nat>, open: map<nat, OpenInode>)
    requires FilesOk(d0, live) && OpenOk(d0, open, live) && forall o :: o in live ==> SameFile(d0, d, o)
    ensures FilesOk(d, live) && OpenOk(d, open, live)
  {
    hide SameFile, Fits, Len, IsDir;
    forall o | o in live ensures o < |d| && Fits(d, o, Len(d, o)) && Len(d, o) == Len(d0, o) &&
        IsDir(d, o) == IsDir(d0, o) {
      InRangeSame(d0, d, o);
      SameFileContents(d0, d, o);
    }
  }

  lemma InRangeSame(d0: Disk, d: Disk, o: nat)
    requires SameFile(d0, d, o)
    ensures o < |d| == |d0|
  {}

  lemma CreateDone(d0: Disk, u0: seq<bool>, n0: Sector, d: Disk, u: seq<bool>, node: Sector, live: set<nat>,
                   open: map<nat, OpenInode>, ino: nat,
                   length: nat, isDir: bool)
    requires Tree(d0, u0, live) && InUse(u0, ino) && Unowned(d0, live, ino) && ino !in live && length <= MAX_BYTES
    requires n0 == FreshInode(length, isDir) && Creating(d0, u0, n0, d, u, node, live + {ino}, ino,
                                                         BytesToSectors(length))
    requires FilesOk(d0, live) && OpenOk(d0, open, live)
    ensures var d1 := d[ino := node];
            && Tree(d1, u, live + {ino}) && FilesOk(d1, live + {ino}) && OpenOk(d1, open, live + {ino})
            && Len(d1, ino) == length && Contents(d1, ino) == seq(length, _ => 0) && IsDir(d1, ino) == isDir
            && forall o :: o in live ==> SameFile(d0, d1, o)
  {
    var d1, e0 := d[ino := node], d0[ino := n0];
    FreshInodeFacts(length, isDir);
    NewInodeTree(d0, u0, live, ino, n0);
    SameTailLength(n0, node);
    hide FreshInode, Tree, Unowned, SameTail, Word;
    forall o | o in live ensures SameFile(d0, d1, o) { SameFileTrans(d0, e0, d1, o); }
    SameFilesOk(d0, d1, live, open);
    NewFileFits(e0, d1, ino, length);
    hide Grown, SameFile, Fits;
  }

  lemma NewFileFits(e0: Disk, d1: Disk, ino: nat, length: nat)
    requires ino < |d1| && Len(d1, ino) == length <= MAX_BYTES && AllZero(e0, ino) &&
             NoneFrom(d1, ino, BytesToSectors(length))
    requires forall pos :: 0 <= pos < MAX_BYTES ==> ByteAt(d1, ino, pos) == ByteAt(e0, ino, pos)
    ensures Fits(d1, ino, length) && Contents(d1, ino) == seq(length, _ => 0)
  {
    hide At, ByteAt;
  }

  lemma FitsCount(d: Disk, ino: nat, len: nat)
    requires Fits(d, ino, len)
    ensures BytesToSectors(len) <= BLOCK_CNT && forall k: nat :: Owned(d, ino, Data(k)) ==> k < BytesToSectors(len)
  {
    hide Owned, At, ByteAt;
  }

  /** An open inode's blocks are within its length, and its entry may go or be counted down. */
  lemma CloseStart(d: Disk, u: seq<bool>, live: set<nat>, open: map<nat, OpenInode>, ino: nat)
    requires Tree(d, u, live) && FilesOk(d, live) && OpenOk(d, open, live)
    ensures ino in open ==> ino in live && InRange(d, ino) && ino < |d| && open[ino].length == Len(d, ino)
    ensures ino in open ==> BytesToSectors(open[ino].length) <= BLOCK_CNT
    ensures ino in open ==> forall k: nat :: Owned(d, ino, Data(k)) ==> k < BytesToSectors(open[ino].length)
    ensures ino in open ==> OpenOk(d, open - {ino}, live)
    ensures ino in open ==> forall n :: OpenOk(d, open[ino := open[ino].(openCnt := n)], live)
  {
    hide Tree, Owned, At, Len;
    if ino in open {
      TreeInRange(d, u, live, ino);
      FitsCount(d, ino, open[ino].length);
    }
  }

  lemma CloseDone(d: Disk, u: seq<bool>, live: set<nat>, open: map<nat, OpenInode>, ino: nat, u': seq<bool>)
    requires Tree(d, u, live) && FilesOk(d, live) && OpenOk(d, open, live) && ino !in open && ino in live
    requires ino < |u| && Freed(d, u[ino := false], ino, false, u')
    ensures Freed(d, u, ino, true, u') && Tree(d, u', live - {ino})
    ensures FilesOk(d, live - {ino}) && OpenOk(d, open, live - {ino})
  {
    hide Tree, Freed;
    WholeFreed(d, u, ino, u');
    TreeDrop(d, u, live, ino, u');
  }

  lemma TruncateStart(d: Disk, u: seq<bool>, live: set<nat>, open: map<nat, OpenInode>, ino: nat)
    requires Tree(d, u, live) && FilesOk(d, live) && OpenOk(d, open, live) && ino in live
    ensures InRange(d, ino) && ino < |d| && Fits(d, ino, Len(d, ino))
    ensures ino in open ==> open[ino].length == Len(d, ino) && open[ino].isDir == IsDir(d, ino)
  {
    TreeInRange(d, u, live, ino);
  }

  lemma TruncatedFile(d: Disk, u: seq<bool>, live: set<nat>, open: map<nat, OpenInode>, ino: nat, n: Sector,
                      isDir: bool, u': seq<bool>)
    requires Tree(d, u, live) && ino in live && ino < |d| && Freed(d, u, ino, false, u')
    requires FilesOk(d, live) && OpenOk(d, open, live) && n == FreshInode(0, isDir) && isDir == IsDir(d, ino)
    ensures Tree(d[ino := n], u', live) && FilesOk(d[ino := n], live)
    ensures OpenOk(d[ino := n], if ino in open then open[ino := open[ino].(length := 0)] else open, live)
    ensures Len(d[ino := n], ino) == 0 && IsDir(d[ino := n], ino) == isDir
    ensures forall o :: o in live && o != ino ==> SameFile(d, d[ino := n], o)
  {
    FreshInodeFacts(0, isDir);
    var d' := d[ino := n];
    TreeReset(d, u, live, ino, n, u');
    hide FreshInode, Word, Freed;
    forall o | o in live && o != ino ensures SameFile(d, d', o) { OtherFile(d, u, live, ino, n, o); }
    EmptyFits(d, ino, n);
    hide Tree, Fits;
    FilesOkAfter(d, d', live, ino);
    OpenOkAfter(d, d', open, live, ino);
  }

  lemma EmptyFits(d: Disk, ino: nat, n: Sector)
    requires ino < |d| && NoPointers(n)
    ensures Fits(d[ino := n], ino, 0)
  {
    var d' := d[ino := n];
    hide NoPointers;
    forall k: nat ensures !Owned(d', ino, Data(k)) {
      if ValidSlot(Data(k)) { AtReset(d, ino, n, Data(k)); }
    }
    forall pos | 0 <= pos < MAX_BYTES ensures ByteAt(d', ino, pos) == 0 { AtReset(d, ino, n, Data(pos / SECTOR_SIZE)); }
  }

  /** Clearing the inode sector as well as its blocks. */
  lemma WholeFreed(d: Disk, u: seq<bool>, ino: nat, u': seq<bool>)
    requires ino < |u| && Freed(d, u[ino := false], ino, false, u')
    ensures Freed(d, u, ino, true, u')
  {
    hide Holds;
  }

  lemma PointerWords(d: Disk, ino: nat)
    requires InRange(d, ino)
    ensures Owned(d, ino, Indirect) <==> Word(d[ino], W_INDIRECT) != 0
    ensures Owned(d, ino, Doubly) <==> Word(d[ino], W_DOUBLY) != 0
    ensures Owned(d, ino, Indirect) ==> At(d, ino, Indirect) == Word(d[ino], W_INDIRECT) < |d|
    ensures Owned(d, ino, Doubly) ==> At(d, ino, Doubly) == Word(d[ino], W_DOUBLY) < |d|
    ensures !Owned(d, ino, Doubly) ==> forall j: nat :: !Owned(d, ino, Inner(j))
  {
    hide Word;
  }

  lemma InnerWord(d: Disk, ino: nat, j: nat)
    requires InRange(d, ino) && j < PTRS_PER_BLOCK && Owned(d, ino, Doubly)
    ensures Word(d[ino], W_DOUBLY) < |d|
    ensures Owned(d, ino, Inner(j)) <==> Word(d[Word(d[ino], W_DOUBLY)], j) != 0
    ensures Owned(d, ino, Inner(j)) ==> At(d, ino, Inner(j)) == Word(d[Word(d[ino], W_DOUBLY)], j) < |d|
  {
    hide Word;
  }

  lemma BlockLookup(d: Disk, ino: nat, idx: nat)
    requires InRange(d, ino) && idx < BLOCK_CNT
    ensures var r := GetBlockSector(d, d[ino], idx);
            r == NonZero(At(d, ino, Data(idx))) && (r.Some? ==> r.value < |d|)
  {
    hide At, GetBlockSector;
    LookupSelf(d, ino, idx);
    assert At(d, ino, Data(idx)) != 0 ==> Owned(d, ino, Data(idx));
  }

  /** The byte at off + j, where j stays inside the block of off. */
  lemma ByteInBlock(d: Disk, ino: nat, off: nat, j: nat)
    requires off % SECTOR_SIZE + j < SECTOR_SIZE && off + j < MAX_BYTES
    ensures var x := At(d, ino, Data(off / SECTOR_SIZE));
            ByteAt(d, ino, off + j) == if x == 0 || x >= |d| then 0 else d[x][off % SECTOR_SIZE + j]
  {
    hide At;
    assert (off + j) / SECTOR_SIZE == off / SECTOR_SIZE && (off + j) % SECTOR_SIZE == off % SECTOR_SIZE + j;
  }

  /** d1 is d0 after data was written to file ino at off: nothing else changed. */
  ghost predicate Wrote(d0: Disk, d1: Disk, live: set<nat>, ino: nat, off: nat, data: seq<Byte>)
  {
    && |d1| == |d0| && ino < |d0| && Len(d0, ino) <= MAX_BYTES && Len(d1, ino) <= MAX_BYTES
    && Contents(d1, ino) == Written(Contents(d0, ino), off, data)
    && IsDir(d1, ino) == IsDir(d0, ino)
    && forall o :: o in live && o != ino ==> SameFile(d0, d1, o)
  }

  lemma InodeStored(d0: Disk, d: Disk, u: seq<bool>, live: set<nat>, open: map<nat, OpenInode>, ino: nat, off: nat,
                    data: seq<Byte>,
                    node: Sector, node': Sector)
    requires |d| == |d0| && off + |data| <= MAX_BYTES
    requires Seen(d, u, live, ino, node) && Writing(d0, d[ino := node], live, ino, off, data)
    requires FilesOk(d0, live) && OpenOk(d0, open, live)
    requires node' == if off + |data| > Word(node, W_LENGTH) then WithLength(node, off + |data|) else node
    ensures ino < |d| && var d1 := d[ino := node'];
            && Tree(d1, u, live) && FilesOk(d1, live) && Wrote(d0, d1, live, ino, off, data)
            && OpenOk(d1, if ino in open then open[ino := open[ino].(length := Word(node', W_LENGTH))] else open, live)
  {
    SeenTree(d, u, live, ino, node);
    SeenLength(d0, d, u, live, ino, node, off, data);
    var e, d1 := d[ino := node], d[ino := node'];
    assert d1 == e[ino := node'];
    hide Seen, Writing, OpenOk;
    WriteDone(d0, e, u, live, ino, off, data, node');
    hide Tree, Fits, Contents, IsDir, WithLength;
    FilesOkAfter(d0, d1, live, ino);
    OpenOkAfter(d0, d1, open, live, ino);
  }

  lemma LengthStored(d: Disk, u: seq<bool>, live: set<nat>, ino: nat, node: Sector, node': Sector, len: nat)
    requires Seen(d, u, live, ino, node) && len < U32 && (node' == node || node' == WithLength(node, len))
    ensures ino < |d| && SameOutside(d[ino := node], d[ino := node'], ino, {})
  {
    WithLengthFacts(node, len);
    assert d[ino := node'] == d[ino := node][ino := node'];
    hide WithLength, Word, Tree;
    InodeWrite(d[ino := node], u, live, ino, node');
  }

  lemma SameFileRefl(d: Disk, u: seq<bool>, live: set<nat>)
    requires Tree(d, u, live)
    ensures forall o :: o in live ==> SameFile(d, d, o)
  {
    forall o | o in live ensures SameFile(d, d, o) { LiveInRange(d, u, live, o); }
  }

  lemma SeenTree(d: Disk, u: seq<bool>, live: set<nat>, ino: nat, node: Sector)
    requires Seen(d, u, live, ino, node)
    ensures ino in live && ino < |d| && Tree(d[ino := node], u, live)
  {}

  lemma SeenLength(d0: Disk, d: Disk, u: seq<bool>, live: set<nat>, ino: nat, node: Sector, off: nat, data: seq<Byte>)
    requires Seen(d, u, live, ino, node) && Writing(d0, d[ino := node], live, ino, off, data)
    ensures ino < |d0| && Word(node, W_LENGTH) == Len(d0, ino)
  {
    SameTailLength(d0[ino], node);
  }

  lemma SteppedGrown(d: Disk, u: seq<bool>, n: Sector, d': Disk, u': seq<bool>, n': Sector, live: set<nat>, ino: nat)
    requires Stepped(d, u, n, d', u', n', live, ino)
    ensures Seen(d', u', live, ino, n') && |d'| == |d| && ino < |d| && Grown(d[ino := n], d'[ino := n'], live, ino)
  {}

  lemma WritingSame(d0: Disk, e: Disk, e': Disk, live: set<nat>, ino: nat, off: nat, data: seq<Byte>)
    requires Writing(d0, e, live, ino, off, data) && Grown(e, e', live, ino) && SameBlocks(e, e', ino)
    ensures Writing(d0, e', live, ino, off, data)
  {
    WritingGrown(d0, e, e', live, ino, off, data);
    hide At, ByteAt;
  }

  /** A round of the write loop, on the real disk: the data sector is not the inode's. */
  lemma RealRound(d0: Disk, e: Disk, d: Disk, u: seq<bool>, live: set<nat>, ino: nat, node: Sector, off: nat,
                  data: seq<Byte>, chunk: seq<Byte>, x: nat)
    requires Writing(d0, e, live, ino, off, data) && Seen(d, u, live, ino, node) && Grown(e, d[ino := node], live, ino)
    requires (off + |data|) / SECTOR_SIZE < BLOCK_CNT && SameBlocksBut(e, d[ino := node], ino,
             (off + |data|) / SECTOR_SIZE)
    requires x != 0 && At(d[ino := node], ino, Data((off + |data|) / SECTOR_SIZE)) == x
    requires chunk != [] && (off + |data|) % SECTOR_SIZE + |chunk| <= SECTOR_SIZE
    ensures x < |d| && x != ino
    ensures var d2 := d[x := Splice(d[x], (off + |data|) % SECTOR_SIZE, chunk)];
            Seen(d2, u, live, ino, node) && Writing(d0, d2[ino := node], live, ino, off, data + chunk)
            && SameOutside(d[ino := node], d2[ino := node], ino, {})
  {
    WriteRound(d0, e, d[ino := node], u, live, ino, off, data, chunk);
    hide Writing, Grown, Tree, At, SameBlocksBut;
    var c: Sector := Splice(d[x], (off + |data|) % SECTOR_SIZE, chunk);
    assert d[x := c][ino := node] == d[ino := node][x := c];
    forall t | ValidSlot(t) ensures At(d[ino := node][x := c], ino, t) == At(d[ino := node], ino, t) {
      AtDataWrite(d[ino := node], u, live, ino, (off + |data|) / SECTOR_SIZE, c, ino, t);
    }
  }
}
