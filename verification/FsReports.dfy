/**
 Directory operations that report what they did not do: add and remove on small disks.
 */
module FsReports {
  import opened FsBytes
  import opened FsTree
  import opened FsFreeMap
  import opened FsSteps
  import opened FsCost
  import opened FsInode
  import opened FsDirectory
  import opened Options

  const ROOT := 1
  const SOME_NAME: Name := [97]

  /** A blank disk and its free map: n - 2 sectors are free. */
  method Blank(n: nat) returns (fs: FileSystem)
    requires 2 <= n <= 100
    ensures fresh(fs) && fresh(fs.cache) && fs.Valid() && fs.live == {} && fs.open == map[] && |fs.disk| == n
    ensures FreeCount(fs.Used()) == n - 2 && InUse(fs.Used(), ROOT)
  {
    fs := new FileSystem(seq(n, _ => ZeroSector()));
    BlankFree(fs.Used(), n);
  }

  ghost function UsedBelow(n: nat, k: nat): seq<bool> { seq(n, x => x < k) }

  lemma {:induction false} FreeAbove(n: nat, k: nat)
    requires 2 <= k <= n
    ensures FreeCount(UsedBelow(n, k)) == n - k
    decreases n - k
  {
    if k < n {
      FreeAbove(n, k + 1);
      FreeCountLess(UsedBelow(n, k), k);
      assert UsedBelow(n, k)[k := true] == UsedBelow(n, k + 1);
    } else {
      FreeCountZero(UsedBelow(n, n));
    }
  }

  lemma BlankFree(u: seq<bool>, n: nat)
    requires 2 <= n == |u| && forall x :: 0 <= x < n ==> (u[x] <==> x < 2)
    ensures FreeCount(u) == n - 2
  {
    FreeAbove(n, 2);
    assert u == UsedBelow(n, 2);
  }

  ghost predicate Zeros(c: seq<Byte>) { forall i :: 0 <= i < |c| ==> c[i] == 0 }

  /** A directory of zeros holds no name, and its first slot is unused. */
  lemma ZerosUnused(c: seq<Byte>)
    requires Zeros(c)
    ensures Unique(c) && FirstUnused(c, 0) == 0 && forall m :: LookupIn(c, m) == None
  {
    forall i | 0 <= i < Count(c) ensures EntryAt(c, i)[IN_USE] == 0 {
      assert EntryAt(c, i)[IN_USE] == c[ENTRY_SIZE * i + IN_USE];
    }
  }

  /** Writes to the directory are denied: add reports true for an unused slot and adds nothing. */
  method AddDenied() returns (fs: FileSystem, ok: bool)
    ensures fresh(fs) && fs.Valid() && fs.Readable(ROOT) && Denied(fs.open, ROOT)
    ensures ok && LookupIn(DirContents(fs, ROOT), SOME_NAME) == None
  {
    hide CacheOk, Tree, FilesOk, Contents, LookupIn, Unique, FreeCount, FirstUnused, Need;
    fs := Blank(3);
    var made := fs.Create(ROOT, ENTRY_SIZE, true);
    fs.Open(ROOT);
    fs.DenyWrite(ROOT);
    fs.LiveReadable(ROOT);
    ZerosUnused(DirContents(fs, ROOT));
    ok := Add(fs, ROOT, SOME_NAME, 2);
  }

  /** A direct block that is not there needs one sector, and one that is there none. */
  lemma DirectNeed(d: Disk, ino: nat, off: nat, size: nat)
    requires 0 < size && off / SECTOR_SIZE == (off + size - 1) / SECTOR_SIZE < DIRECT_CNT
    ensures Touched(off, size) == {Data(off / SECTOR_SIZE)}
    ensures Need(d, ino, Touched(off, size)) == if At(d, ino, Data(off / SECTOR_SIZE)) == 0 then 1 else 0
  {
    var b := off / SECTOR_SIZE;
    assert Paths(b, b + 1) == Path(b) + Paths(b + 1, b + 1) == {Data(b)};
    NeedOne(d, ino, Data(b));
  }

  lemma EmptyHasNone(d: Disk, ino: nat, k: nat)
    requires Fits(d, ino, 0) && k < BLOCK_CNT
    ensures At(d, ino, Data(k)) == 0
  {
    FitsCount(d, ino, 0);
  }

  /** The last free sector went to the third block of the directory, whose first two are holes: add
      reports true for a slot in the first of them and adds nothing. */
  method AddFull() returns (fs: FileSystem, ok: bool)
    ensures fresh(fs) && fs.Valid() && fs.Readable(ROOT) && fs.open == map[]
    ensures ok && LookupIn(DirContents(fs, ROOT), SOME_NAME) == None
  {
    hide CacheOk, Tree, Contents, LookupIn, Unique, FreeCount, FirstUnused, Need, Fits, At, Touched;
    fs := Blank(3);
    var made := fs.Create(ROOT, 0, true);
    EmptyHasNone(fs.disk, ROOT, 0);
    EmptyHasNone(fs.disk, ROOT, 2);
    DirectNeed(fs.disk, ROOT, 1100, 1);
    var n := fs.WriteAt(ROOT, [0], 1, 1100);
    fs.LiveReadable(ROOT);
    ghost var c := DirContents(fs, ROOT);
    assert c == Written([], 1100, [0]) && |c| == 1101;
    ZerosUnused(c);
    DirectNeed(fs.disk, ROOT, 0, ENTRY_SIZE);
    ok := Add(fs, ROOT, SOME_NAME, 2);
  }

  /** Every name stands for a live inode. */
  lemma NamesLive(c: seq<Byte>, live: set<nat>)
    requires Unique(c) && forall m :: LookupIn(c, m).Some? ==> LookupIn(c, m).value in live
    ensures EntriesLive(c, live)
  {
    forall i | 0 <= i < Count(c) && EntryAt(c, i)[IN_USE] != 0 ensures EntrySector(EntryAt(c, i)) in live {
      var e := EntryAt(c, i);
      var m := e[4..4 + NameEnd(e, 0)];
      assert NameMatches(e, m);
      FindIs(c, m, i);
      assert LookupIn(c, m) == Some(EntrySector(e));
    }
  }

  /** A file was added, then writes to the directory were denied: remove reports true, and the name
      is still there. */
  method RemoveDenied() returns (fs: FileSystem, ok: bool)
    ensures fresh(fs) && fs.Valid() && fs.Readable(ROOT) && Denied(fs.open, ROOT)
    ensures ok && LookupIn(DirContents(fs, ROOT), SOME_NAME).Some?
  {
    hide CacheOk, Tree, FilesOk, Contents, LookupIn, Unique, FreeCount, FirstUnused, Need, At, Touched, AllIgnored,
        Find;
    var file;
    fs, file := WithFile();
    fs.Open(ROOT);
    fs.DenyWrite(ROOT);
    fs.LiveReadable(ROOT);
    fs.LiveReadable(file);
    NamesLive(DirContents(fs, ROOT), fs.live);
    ok := Remove(fs, ROOT, SOME_NAME);
  }

  /** A sector is taken and an empty file made in it. */
  method NewFile(fs: FileSystem) returns (file: nat)
    requires fs.Valid() && 0 < FreeCount(fs.Used())
    modifies fs`disk, fs`bitmap, fs`live, fs.cache
    ensures fs.Valid() && file !in old(fs.live) && fs.live == old(fs.live) + {file} && |fs.disk| == |old(fs.disk)|
    ensures file < |fs.disk| && !IsDir(fs.disk, file) && FreeCount(fs.Used()) + 1 == FreeCount(old(fs.Used()))
    ensures forall o :: o in old(fs.live) ==> SameFile(old(fs.disk), fs.disk, o)
  {
    hide CacheOk, Contents, FreeCount, SameFile, FilesOk, OpenOk, IsDir;
    ghost var d, u := fs.disk, fs.Used();
    var r := fs.AllocateOne();
    SpentOne(u, fs.Used(), r);
    file := r.value;
    FreeIsUnowned(d, u, fs.live, file);
    TreeMark(d, u, fs.Used(), fs.live);
    if file in fs.live { UsedAt(d, u, fs.live, file, Self); }
    hide Tree, Unowned;
    var made := fs.Create(file, 0, false);
  }

  /** A directory with one name, of an empty file. */
  method WithFile() returns (fs: FileSystem, file: nat)
    ensures fresh(fs) && fresh(fs.cache) && fs.Valid() && fs.Readable(ROOT) && fs.open == map[] &&
            fs.live == {ROOT, file}
    ensures file < |fs.disk| && !IsDir(fs.disk, file) && Unique(DirContents(fs, ROOT))
    ensures forall m :: LookupIn(DirContents(fs, ROOT), m) == if m == SOME_NAME then Some(file) else None
  {
    hide CacheOk, Tree, FilesOk, Contents, LookupIn, Unique, FreeCount, FirstUnused, Need, At, Touched, Find,
        SameFile, IsDir;
    fs := Blank(5);
    var made := fs.Create(ROOT, ENTRY_SIZE, true);
    ghost var d := fs.disk;
    file := NewFile(fs);
    fs.LiveReadable(ROOT);
    SameFileContents(d, fs.disk, ROOT);
    ZerosUnused(DirContents(fs, ROOT));
    DirectNeed(fs.disk, ROOT, 0, ENTRY_SIZE);
    d := fs.disk;
    var ok := Add(fs, ROOT, SOME_NAME, file);
    SameFileContents(d, fs.disk, file);
  }
}
