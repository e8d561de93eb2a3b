/**
 The buffer cache.
 */
module BufferCache {
  import opened FsBytes
  import opened Options

  const NBUF := 30

  type Disk = seq<Sector>

  datatype Buf = Buf(valid: bool, dirty: bool, sector: nat, refcnt: nat, data: Sector)

  predicate Caches(b: Buf, s: nat) { b.valid && b.sector == s }

  /** The first buffer that caches s, or the number of buffers. */
  function Cached(bufs: seq<Buf>, s: nat): (i: nat)
    ensures i <= |bufs| && (i < |bufs| ==> Caches(bufs[i], s)) && forall j :: 0 <= j < i ==> !Caches(bufs[j], s)
  {
    if bufs == [] || Caches(bufs[0], s) then 0 else 1 + Cached(bufs[1..], s)
  }

  /** What sector s holds as far as users of the cache can tell. */
  function Visible(bufs: seq<Buf>, disk: Disk, s: nat): Sector
    requires s < |disk|
  {
    var i := Cached(bufs, s);
    if i < |bufs| then bufs[i].data else disk[s]
  }

  /** One valid buffer a sector at most, and what nobody holds and is not marked dirty is on disk. */
  ghost predicate Coherent(bufs: seq<Buf>, disk: Disk)
  {
    && |bufs| == NBUF
    && (forall i, j :: 0 <= i < j < |bufs| && bufs[i].valid && bufs[j].valid ==> bufs[i].sector != bufs[j].sector)
    && (forall i :: 0 <= i < |bufs| && bufs[i].valid ==> bufs[i].sector < |disk|)
    && (forall i :: 0 <= i < |bufs| && bufs[i].valid && bufs[i].refcnt == 0 && !bufs[i].dirty ==>
        bufs[i].data == disk[bufs[i].sector])
    && (forall i :: 0 <= i < |bufs| && bufs[i].dirty ==> bufs[i].valid)
  }

  lemma OnlyCached(bufs: seq<Buf>, disk: Disk, i: nat, s: nat)
    requires Coherent(bufs, disk) && i < |bufs| && Caches(bufs[i], s)
    ensures Cached(bufs, s) == i
  {}

  lemma NotCached(bufs: seq<Buf>, s: nat)
    requires forall i :: 0 <= i < |bufs| ==> !Caches(bufs[i], s)
    ensures Cached(bufs, s) == |bufs|
  {}

  /** The same sectors are cached in the same buffers with the same data. */
  lemma SameVisible(bufs: seq<Buf>, bufs': seq<Buf>, disk: Disk, s: nat)
    requires |bufs'| == |bufs| && s < |disk|
    requires forall i :: 0 <= i < |bufs| ==>
             (Caches(bufs'[i], s) <==> Caches(bufs[i], s)) && (Caches(bufs[i], s) ==> bufs'[i].data == bufs[i].data)
    ensures Visible(bufs', disk, s) == Visible(bufs, disk, s)
  {
    var i, i' := Cached(bufs, s), Cached(bufs', s);
    if i < |bufs| { assert Caches(bufs'[i], s); }
    if i' < |bufs| { assert Caches(bufs[i'], s); }
  }

  lemma RecycledCoherent(bufs: seq<Buf>, disk: Disk, disk': Disk, i: nat, s: nat)
    requires Coherent(bufs, disk) && i < |bufs| && bufs[i].refcnt == 0 && s < |disk|
    requires forall j :: 0 <= j < |bufs| ==> !Caches(bufs[j], s)
    requires disk' == if bufs[i].dirty then disk[bufs[i].sector := bufs[i].data] else disk
    ensures Coherent(bufs[i := Buf(true, false, s, 1, disk'[s])], disk')
  {
    forall j | 0 <= j < |bufs| && j != i && bufs[j].valid && bufs[i].valid ensures bufs[j].sector != bufs[i].sector {}
  }

  /** Buffer i turned over to sector s: everything looks as before. */
  lemma Recycled(bufs: seq<Buf>, disk: Disk, disk': Disk, i: nat, s: nat, x: nat)
    requires Coherent(bufs, disk) && i < |bufs| && bufs[i].refcnt == 0 && s < |disk| && x < |disk|
    requires forall j :: 0 <= j < |bufs| ==> !Caches(bufs[j], s)
    requires disk' == if bufs[i].dirty then disk[bufs[i].sector := bufs[i].data] else disk
    ensures var bufs' := bufs[i := Buf(true, false, s, 1, disk'[s])];
            Coherent(bufs', disk') && Visible(bufs', disk', x) == Visible(bufs, disk, x)
  {
    var bufs' := bufs[i := Buf(true, false, s, 1, disk'[s])];
    RecycledCoherent(bufs, disk, disk', i, s);
    if x == s {
      OnlyCached(bufs', disk', i, s);
      NotCached(bufs, s);
    } else if bufs[i].valid && bufs[i].sector == x {
      OnlyCached(bufs, disk, i, x);
      NotCached(bufs', x);
    } else {
      var k, k' := Cached(bufs, x), Cached(bufs', x);
      if k < |bufs| { OnlyCached(bufs', disk', k, x); } else { NotCached(bufs', x); }
    }
  }

  ghost function Logical(bufs: seq<Buf>, disk: Disk): (d: Disk)
    ensures |d| == |disk|
  {
    seq(|disk|, s requires 0 <= s < |disk| => Visible(bufs, disk, s))
  }

  function Refs(bufs: seq<Buf>): (r: seq<nat>)
    ensures |r| == |bufs|
  {
    seq(|bufs|, i requires 0 <= i < |bufs| => bufs[i].refcnt)
  }

  /** The sector in each buffer. */
  function Sectors(bufs: seq<Buf>): (r: seq<Option<nat>>)
    ensures |r| == |bufs|
  {
    seq(|bufs|, i requires 0 <= i < |bufs| => if bufs[i].valid then Some(bufs[i].sector) else None)
  }

  /** The first buffer nobody holds, or the number of buffers. */
  function FirstFree(refs: seq<nat>): (i: nat)
    ensures i <= |refs| && (i < |refs| ==> refs[i] == 0) && forall j :: 0 <= j < i ==> refs[j] > 0
  {
    if refs == [] || refs[0] == 0 then 0 else 1 + FirstFree(refs[1..])
  }

  /** Which sector is where once s has been asked for: a sector not there yet takes the place of
      whatever is in the first buffer nobody holds. */
  function Turnover(sectors: seq<Option<nat>>, refs: seq<nat>, s: nat): (r: seq<Option<nat>>)
    ensures |r| == |sectors|
  {
    if Some(s) in sectors || FirstFree(refs) >= |sectors| then sectors else sectors[FirstFree(refs) := Some(s)]
  }

  lemma FirstFreeIs(refs: seq<nat>, i: nat)
    requires i <= |refs| && (i < |refs| ==> refs[i] == 0) && forall j :: 0 <= j < i ==> refs[j] > 0
    ensures FirstFree(refs) == i
  {}

  /** A buffer's count changed, and nothing else. */
  lemma Counted(bufs: seq<Buf>, disk: Disk, i: nat, n: nat)
    requires Coherent(bufs, disk) && i < |bufs|
    requires n == 0 && bufs[i].valid && !bufs[i].dirty ==> bufs[i].data == disk[bufs[i].sector]
    ensures var bufs' := bufs[i := bufs[i].(refcnt := n)];
            Coherent(bufs', disk) && Logical(bufs', disk) == Logical(bufs, disk)
  {
    var bufs' := bufs[i := bufs[i].(refcnt := n)];
    forall s | 0 <= s < |disk| ensures Visible(bufs', disk, s) == Visible(bufs, disk, s) {
      SameVisible(bufs, bufs', disk, s);
    }
  }

  /** A held buffer written to: its sector, and no other, looks different. */
  lemma Modified(bufs: seq<Buf>, disk: Disk, i: nat, data: Sector)
    requires Coherent(bufs, disk) && i < |bufs| && bufs[i].valid && bufs[i].refcnt > 0
    ensures var bufs' := bufs[i := bufs[i].(data := data)];
            Coherent(bufs', disk) && Logical(bufs', disk) == Logical(bufs, disk)[bufs[i].sector := data]
  {
    var bufs' := bufs[i := bufs[i].(data := data)];
    forall s | 0 <= s < |disk| ensures Visible(bufs', disk, s) == if s == bufs[i].sector then data
        else Visible(bufs, disk, s) {
      if s == bufs[i].sector { OnlyCached(bufs', disk, i, s); } else { SameVisible(bufs, bufs', disk, s); }
    }
  }

  lemma WrittenCoherent(bufs: seq<Buf>, disk: Disk, i: nat)
    requires Coherent(bufs, disk) && i < |bufs| && bufs[i].valid
    ensures Coherent(bufs[i := bufs[i].(dirty := false)], disk[bufs[i].sector := bufs[i].data])
  {}

  /** A buffer written through: everything looks the same, and its sector is up to date. */
  lemma WrittenThrough(bufs: seq<Buf>, disk: Disk, i: nat)
    requires Coherent(bufs, disk) && i < |bufs| && bufs[i].valid && bufs[i].sector < |disk|
    ensures var bufs', disk' := bufs[i := bufs[i].(dirty := false)], disk[bufs[i].sector := bufs[i].data];
            Coherent(bufs', disk') && Logical(bufs', disk') == Logical(bufs, disk)
  {
    hide Coherent, Cached;
    var bufs', disk' := bufs[i := bufs[i].(dirty := false)], disk[bufs[i].sector := bufs[i].data];
    WrittenCoherent(bufs, disk, i);
    forall s | 0 <= s < |disk| ensures Visible(bufs', disk', s) == Visible(bufs, disk, s) {
      if s == bufs[i].sector {
        OnlyCached(bufs, disk, i, s);
        OnlyCached(bufs', disk', i, s);
      } else {
        SameVisible(bufs, bufs', disk, s);
      }
    }
  }

  lemma CleanOnDisk(bufs: seq<Buf>, disk: Disk, i: nat)
    requires Coherent(bufs, disk) && i < NBUF
    ensures |bufs| == NBUF && (bufs[i].valid ==> bufs[i].sector < |disk|)
    ensures bufs[i].valid && bufs[i].refcnt == 0 && !bufs[i].dirty ==> bufs[i].data == disk[bufs[i].sector]
  {}

  lemma CachedIsVisible(bufs: seq<Buf>, disk: Disk, i: nat, s: nat)
    requires Coherent(bufs, disk) && i < |bufs| && Caches(bufs[i], s) && s < |disk|
    ensures Logical(bufs, disk)[s] == bufs[i].data
  {
    OnlyCached(bufs, disk, i, s);
  }

  /** A cache that shows what is on disk has in every valid buffer what is on disk. */
  lemma AllOnDisk(bufs: seq<Buf>, disk: Disk)
    requires Coherent(bufs, disk) && Logical(bufs, disk) == disk
    ensures forall i :: 0 <= i < |bufs| && bufs[i].valid ==>
              bufs[i].sector < |disk| && bufs[i].data == disk[bufs[i].sector]
  {
    forall i | 0 <= i < |bufs| && bufs[i].valid ensures bufs[i].data == disk[bufs[i].sector] {
      CachedIsVisible(bufs, disk, i, bufs[i].sector);
    }
  }

  class BCache {
    var disk: Disk
    var bufs: seq<Buf>

    ghost predicate Valid() reads this { Coherent(bufs, disk) }

    /** The disk as users of the cache see it. */
    ghost function View(): Disk reads this { Logical(bufs, disk) }

    constructor (d: Disk)
      ensures Valid() && View() == disk == d && Refs(bufs) == seq(NBUF, _ => 0)
    {
      disk := d;
      bufs := seq(NBUF, _ => Buf(false, false, 0, 0, ZeroSector()));
      new;
      forall s | 0 <= s < |disk| ensures Visible(bufs, disk, s) == disk[s] { NotCached(bufs, s); }
    }

    /** bread: fails only when the sector is not cached and every buffer is held; otherwise the buffer
        holds what the sector looks like, and nothing looks different. */
    method Bread(s: nat) returns (r: Option<nat>)
      requires Valid() && s < |disk|
      modifies this
      ensures Valid() && |disk| == |old(disk)| && |bufs| == |old(bufs)| && View() == old(View())
      ensures r.None? <==> forall i :: 0 <= i < |old(bufs)| ==> !Caches(old(bufs)[i], s) && old(bufs)[i].refcnt > 0
      ensures r.Some? ==> r.value < |bufs| && Caches(bufs[r.value], s) && bufs[r.value].data == View()[s]
      ensures r.Some? ==> Refs(bufs) == Refs(old(bufs))[r.value := old(bufs)[r.value].refcnt + 1]
      ensures r.Some? && bufs[r.value].refcnt == 1 && !bufs[r.value].dirty ==> disk[s] == bufs[r.value].data
      ensures Sectors(bufs) == Turnover(Sectors(old(bufs)), Refs(old(bufs)), s)
      ensures old(disk) == old(View()) ==> disk == old(disk)
    {
      hide Coherent, Logical;
      var i := FindCached(s);
      if i < NBUF {
        assert Sectors(bufs)[i] == Some(s);
        Hit(i, s);
        return Some(i);
      }
      i := FindFree();
      if i < NBUF {
        Evict(i, s);
        return Some(i);
      }
      assert forall j :: 0 <= j < NBUF ==> bufs[j].refcnt == Refs(bufs)[j];
      return None;
    }

    method FindCached(s: nat) returns (i: nat)
      requires Valid()
      ensures i <= NBUF == |bufs| && (i < NBUF ==> Caches(bufs[i], s)) &&
              (i == NBUF ==> forall j :: 0 <= j < |bufs| ==> !Caches(bufs[j], s))
    {
      for k := 0 to NBUF
        invariant forall j :: 0 <= j < k ==> !Caches(bufs[j], s)
      {
        if bufs[k].sector == s && bufs[k].valid { return k; }
      }
      return NBUF;
    }

    method FindFree() returns (i: nat)
      requires Valid()
      ensures i == FirstFree(Refs(bufs)) <= NBUF == |bufs|
    {
      for k := 0 to NBUF
        invariant forall j :: 0 <= j < k ==> Refs(bufs)[j] > 0
      {
        if bufs[k].refcnt == 0 {
          FirstFreeIs(Refs(bufs), k);
          return k;
        }
      }
      FirstFreeIs(Refs(bufs), NBUF);
      return NBUF;
    }

    method Hit(i: nat, s: nat)
      requires Valid() && i < NBUF == |bufs| && Caches(bufs[i], s) && s < |disk|
      modifies this`bufs
      ensures Valid() && View() == old(View()) && Caches(bufs[i], s) && bufs[i].data == View()[s]
      ensures Refs(bufs) == Refs(old(bufs))[i := old(bufs)[i].refcnt + 1] && Sectors(bufs) == Sectors(old(bufs))
      ensures bufs[i].refcnt == 1 && !bufs[i].dirty ==> disk[s] == bufs[i].data
    {
      hide Coherent, Logical, Cached;
      CleanOnDisk(bufs, disk, i);
      Counted(bufs, disk, i, bufs[i].refcnt + 1);
      bufs := bufs[i := bufs[i].(refcnt := bufs[i].refcnt + 1)];
      CachedIsVisible(bufs, disk, i, s);
    }

    method Evict(i: nat, s: nat)
      requires Valid() && i < NBUF && bufs[i].refcnt == 0 && s < |disk|
      requires forall j :: 0 <= j < NBUF ==> !Caches(bufs[j], s)
      modifies this
      ensures Valid() && |disk| == |old(disk)| && View() == old(View())
      ensures Caches(bufs[i], s) && !bufs[i].dirty && bufs[i].data == View()[s] == disk[s]
      ensures Refs(bufs) == Refs(old(bufs))[i := 1] && Sectors(bufs) == Sectors(old(bufs))[i := Some(s)]
      ensures old(disk) == old(View()) ==> disk == old(disk)
    {
      ghost var bufs0, disk0 := bufs, disk;
      if bufs[i].dirty {
        CachedIsVisible(bufs, disk, i, bufs[i].sector);
        disk := disk[bufs[i].sector := bufs[i].data];
      }
      bufs := bufs[i := Buf(true, false, s, 1, disk[s])];
      forall x | 0 <= x < |disk| ensures Visible(bufs, disk, x) == Visible(bufs0, disk0, x) {
        Recycled(bufs0, disk0, disk, i, s, x);
      }
      Recycled(bufs0, disk0, disk, i, s, s);
      OnlyCached(bufs, disk, i, s);
    }

    method Brelse(i: nat)
      requires Valid() && i < NBUF && bufs[i].refcnt > 0
      requires bufs[i].refcnt == 1 && bufs[i].valid && !bufs[i].dirty ==> bufs[i].data == disk[bufs[i].sector]
      modifies this`bufs
      ensures Valid() && View() == old(View()) &&
              bufs == old(bufs)[i := old(bufs)[i].(refcnt := old(bufs)[i].refcnt - 1)]
    {
      Counted(bufs, disk, i, bufs[i].refcnt - 1);
      bufs := bufs[i := bufs[i].(refcnt := bufs[i].refcnt - 1)];
    }

    method Bwrite(i: nat)
      requires Valid() && i < NBUF && bufs[i].valid
      modifies this
      ensures Valid() && View() == old(View()) && |disk| == |old(disk)| &&
              bufs == old(bufs)[i := old(bufs)[i].(dirty := false)]
      ensures bufs[i].sector < |disk| && disk == old(disk)[bufs[i].sector := bufs[i].data]
    {
      CleanOnDisk(bufs, disk, i);
      WrittenThrough(bufs, disk, i);
      disk := disk[bufs[i].sector := bufs[i].data];
      bufs := bufs[i := bufs[i].(dirty := false)];
    }

    /** sync: nothing looks different, and nothing is left dirty. */
    method Sync()
      requires Valid()
      modifies this
      ensures Valid() && View() == old(View()) && |disk| == |old(disk)| && Refs(bufs) == Refs(old(bufs))
      ensures forall i :: 0 <= i < |bufs| ==> !bufs[i].dirty
    {
      for i := 0 to NBUF
        invariant Valid() && View() == old(View()) && |disk| == |old(disk)| && Refs(bufs) == Refs(old(bufs))
        invariant forall j :: 0 <= j < i ==> !bufs[j].dirty
      {
        if bufs[i].valid && bufs[i].dirty { Bwrite(i); }
      }
    }

    /** bread for a caller that cannot go on without: with a buffer to spare there always is one. */
    method Acquire(s: nat) returns (i: nat)
      requires Valid() && s < |disk| && Room(Refs(bufs))
      modifies this
      ensures Valid() && |disk| == |old(disk)| && View() == old(View())
      ensures Refs(bufs) == Taken(old(Refs(bufs)), i) && Held(bufs, disk, i, s) && bufs[i].data == View()[s]
      ensures Sectors(bufs) == Turnover(old(Sectors(bufs)), old(Refs(bufs)), s)
      ensures old(disk) == old(View()) ==> disk == old(disk)
    {
      hide Coherent, Logical, Turnover;
      RoomBuffer(bufs);
      var r := Bread(s);
      i := r.value;
      assert bufs[i].refcnt == Refs(bufs)[i];
    }

    method Release(i: nat, s: nat, ghost refs: seq<nat>)
      requires Valid() && |refs| == NBUF && Held(bufs, disk, i, s) && Refs(bufs) == Taken(refs, i)
      modifies this`bufs
      ensures Valid() && View() == old(View()) && Refs(bufs) == refs && Sectors(bufs) == old(Sectors(bufs))
    {
      hide Coherent, Logical;
      ghost var before := bufs;
      Brelse(i);
      forall j | 0 <= j < NBUF ensures Refs(bufs)[j] == refs[j] { assert Refs(before)[j] == Taken(refs, i)[j]; }
    }

    /** A held buffer overwritten and written through. */
    method Overwrite(i: nat, s: nat, data: Sector)
      requires Valid() && Held(bufs, disk, i, s) && s < |disk|
      modifies this
      ensures Valid() && View() == old(View())[s := data] && disk == old(disk)[s := data]
      ensures Refs(bufs) == old(Refs(bufs)) && Sectors(bufs) == old(Sectors(bufs)) && Held(bufs, disk, i, s) &&
              bufs[i].data == data
    {
      hide Coherent, Logical;
      Modified(bufs, disk, i, data);
      bufs := bufs[i := bufs[i].(data := data)];
      Bwrite(i);
      assert Refs(bufs) == old(Refs(bufs));
    }
  }

  // ---- which sectors stay -------------------------------------------------------------------------

  /** Where sectors are after a run of requests, each buffer given back before the next request. */
  function AfterRequests(sectors: seq<Option<nat>>, refs: seq<nat>, xs: seq<nat>): (r: seq<Option<nat>>)
    ensures |r| == |sectors|
  {
    if xs == [] then sectors else Turnover(AfterRequests(sectors, refs, xs[..|xs| - 1]), refs, xs[|xs| - 1])
  }

  function NothingCached(): seq<Option<nat>> { seq(NBUF, _ => None) }

  function NothingHeld(): seq<nat> { seq(NBUF, _ => 0) }

  /** From an empty cache, with buffers given back before the next is asked for, only the last sector
      asked for is there: its predecessors went through the same first buffer. */
  lemma {:induction false} OnlyTheLast(xs: seq<nat>)
    ensures AfterRequests(NothingCached(), NothingHeld(), xs) ==
            if xs == [] then NothingCached() else NothingCached()[0 := Some(xs[|xs| - 1])]
  {
    if xs != [] {
      OnlyTheLast(xs[..|xs| - 1]);
      FirstFreeIs(NothingHeld(), 0);
    }
  }

  /** The sectors asked for most recently, without repeats, latest first. */
  function Recent(xs: seq<nat>): seq<nat>
  {
    if xs == [] then [] else
      var x, r := xs[|xs| - 1], Recent(xs[..|xs| - 1]);
      [x] + Without(r, x)
  }

  function Without(r: seq<nat>, x: nat): seq<nat>
  {
    if r == [] then [] else (if r[0] == x then [] else [r[0]]) + Without(r[1..], x)
  }

  /** What replacing the least recently used sector would keep: the NBUF most recent ones. */
  predicate LruKeeps(xs: seq<nat>, s: nat) { s in Recent(xs)[..if |Recent(xs)| < NBUF then |Recent(xs)| else NBUF] }

  predicate CacheKeeps(xs: seq<nat>, s: nat) { Some(s) in AfterRequests(NothingCached(), NothingHeld(), xs) }

  /** The cache answers as replacement of the least recently used sector would exactly for the sector
      asked for last and for those that replacement had dropped too. */
  lemma LruOnlyForTheLast(xs: seq<nat>, s: nat)
    ensures (CacheKeeps(xs, s) <==> LruKeeps(xs, s)) <==> (xs != [] && s == xs[|xs| - 1]) || !LruKeeps(xs, s)
  {
    OnlyTheLast(xs);
    if xs != [] {
      assert NothingCached()[0 := Some(xs[|xs| - 1])][0] == Some(xs[|xs| - 1]);
      assert Recent(xs)[0] == xs[|xs| - 1];
    }
  }

  lemma {:induction false} WithoutMembers(r: seq<nat>, x: nat, s: nat)
    ensures s in Without(r, x) <==> s in r && s != x
  {
    if r != [] { WithoutMembers(r[1..], x, s); }
  }

  lemma {:induction false} RecentMembers(xs: seq<nat>, s: nat)
    ensures s in Recent(xs) <==> s in xs
  {
    if xs != [] {
      var k := |xs| - 1;
      assert xs == xs[..k] + [xs[k]];
      RecentMembers(xs[..k], s);
      WithoutMembers(Recent(xs[..k]), xs[k], s);
    }
  }

  lemma RecentFirst(xs: seq<nat>)
    requires xs != []
    ensures Recent(xs) != [] && Recent(xs)[0] == xs[|xs| - 1]
    ensures forall j :: 1 <= j < |Recent(xs)| ==> Recent(xs)[j] != xs[|xs| - 1]
  {
    var k := |xs| - 1;
    assert Recent(xs)[1..] == Without(Recent(xs[..k]), xs[k]);
    WithoutMembers(Recent(xs[..k]), xs[k], xs[k]);
    forall j | 1 <= j < |Recent(xs)| ensures Recent(xs)[j] != xs[k] { assert Recent(xs)[j] == Recent(xs)[1..][j - 1]; }
  }

  /** For a whole history the two agree exactly if it asks for one sector over and over. */
  lemma LruOnlyForOneSector(xs: seq<nat>)
    requires xs != []
    ensures (forall s :: CacheKeeps(xs, s) <==> LruKeeps(xs, s)) <==> forall i :: 0 <= i < |xs| ==> xs[i] == xs[0]
  {
    var last, r := xs[|xs| - 1], Recent(xs);
    RecentFirst(xs);
    if i :| 0 <= i < |xs| && xs[i] != last {
      RecentMembers(xs, xs[i]);
      assert r[..if |r| < NBUF then |r| else NBUF][1] == r[1];
      LruOnlyForTheLast(xs, r[1]);
    } else {
      forall s ensures CacheKeeps(xs, s) <==> LruKeeps(xs, s) {
        RecentMembers(xs, s);
        LruOnlyForTheLast(xs, s);
      }
    }
  }

  /** Two requests are enough: the second throws out the sector used just before. */
  lemma MostRecentThrownOut()
    ensures LruKeeps([7, 8], 7) && !CacheKeeps([7, 8], 7)
  {
    OnlyTheLast([7, 8]);
    assert [7, 8][..1] == [7] && [7][..0] == [];
    assert Recent([7]) == [7];
    assert Recent([7, 8]) == [8, 7];
    assert [8, 7][..2][1] == 7;
  }

  /** Some buffer is not held. */
  ghost predicate Room(refs: seq<nat>) { |refs| == NBUF && exists i :: 0 <= i < NBUF && refs[i] == 0 }

  /** One more reference to buffer i. */
  ghost function Taken(refs: seq<nat>, i: nat): (r: seq<nat>)
    ensures |r| == |refs|
  {
    if i < |refs| then refs[i := refs[i] + 1] else refs
  }

  /** Buffer i is held for sector s, and can be given back. */
  ghost predicate Held(bufs: seq<Buf>, disk: Disk, i: nat, s: nat)
  {
    && i < |bufs| && Caches(bufs[i], s) && bufs[i].refcnt > 0 && s < |disk|
    && (bufs[i].refcnt == 1 && !bufs[i].dirty ==> bufs[i].data == disk[s])
  }

  lemma RoomBuffer(bufs: seq<Buf>)
    requires Room(Refs(bufs))
    ensures |bufs| == NBUF && exists i :: 0 <= i < |bufs| && bufs[i].refcnt == 0
  {
    var i :| 0 <= i < NBUF && Refs(bufs)[i] == 0;
    assert bufs[i].refcnt == 0;
  }
}
