/**
 Directories: files of 20-byte entries, and the map from names to inodes they stand for.
 */
module FsDirectory {
  import opened FsBytes
  import opened FsTree
  import opened FsSteps
  import opened FsFreeMap
  import opened FsCost
  import opened FsInode
  import opened Options

  const NAME_MAX := 14
  const ENTRY_SIZE := 20
  const IN_USE := 19

  type Name = seq<Byte>

  /** A name an entry can hold: short, and without the terminator. */
  predicate Proper(name: Name) { |name| <= NAME_MAX && forall i :: 0 <= i < |name| ==> name[i] != 0 }

  type Entry = e: seq<Byte> | |e| == ENTRY_SIZE witness seq(ENTRY_SIZE, _ => 0)

  /** make_entry: sector, name cut to 14 bytes and zero-padded to 15, in-use flag. */
  function MakeEntry(name: Name, sector: nat): (e: Entry)
    requires sector < U32
  {
    seq(ENTRY_SIZE, i requires 0 <= i < ENTRY_SIZE => EntryByte(name, sector, i))
  }

  function EntryByte(name: Name, sector: nat, i: nat): Byte
    requires sector < U32
  {
    if i == 0 then sector % 0x100
    else if i == 1 then sector / 0x100 % 0x100
    else if i == 2 then sector / 0x1_0000 % 0x100
    else if i == 3 then sector / 0x100_0000
    else if i == IN_USE then 1
    else if i - 4 < |name| && i - 4 < NAME_MAX then name[i - 4]
    else 0
  }

  function EntrySector(e: Entry): nat
  {
    var b0: nat, b1: nat, b2: nat, b3: nat := e[0], e[1], e[2], e[3];
    b0 + 0x100 * b1 + 0x1_0000 * b2 + 0x100_0000 * b3
  }

  /** Bytes of the name field from i up to its terminator. */
  function NameEnd(e: Entry, i: nat): (n: nat)
    requires i <= 15
    ensures i <= n <= 15 && (n < 15 ==> e[4 + n] == 0) && forall k :: 4 + i <= k < 4 + n ==> e[k] != 0
    decreases 15 - i
  {
    if i == 15 || e[4 + i] == 0 then i else NameEnd(e, i + 1)
  }

  predicate NameMatches(e: Entry, name: Name)
  {
    e[IN_USE] != 0 && NameEnd(e, 0) == |name| && e[4..4 + NameEnd(e, 0)] == name
  }

  lemma EntrySectorBack(name: Name, sector: nat)
    requires sector < U32
    ensures EntrySector(MakeEntry(name, sector)) == sector
  {
    Digits(sector);
  }

  lemma EntryBytes(name: Name, sector: nat)
    requires sector < U32 && Proper(name)
    ensures var e := MakeEntry(name, sector); e[IN_USE] == 1 && e[4 + |name|] == 0 && e[4..4 + |name|] == name
    ensures forall k :: 0 <= k < |name| ==> name[k] == MakeEntry(name, sector)[4 + k]
  {
    var e := MakeEntry(name, sector);
    assert e[4 + |name|] == 0 && forall k :: 0 <= k < |name| ==> e[4..4 + |name|][k] == name[k];
  }

  lemma EntryName(name: Name, sector: nat)
    requires sector < U32 && Proper(name)
    ensures var e := MakeEntry(name, sector); e[IN_USE] == 1 && NameEnd(e, 0) == |name| && e[4..4 + |name|] == name
  {
    hide MakeEntry, EntryByte, NameEnd;
    EntryBytes(name, sector);
  }

  /** An entry made for a name matches that name and no other, and gives the sector back. */
  lemma EntryRoundTrip(name: Name, sector: nat, other: Name)
    requires sector < U32 && Proper(name)
    ensures EntrySector(MakeEntry(name, sector)) == sector
    ensures NameMatches(MakeEntry(name, sector), other) <==> other == name
  {
    EntrySectorBack(name, sector);
    EntryName(name, sector);
    hide MakeEntry, NameEnd, EntrySector;
  }

  /** An entry answers to one name only. */
  lemma OneName(e: Entry, name: Name, other: Name)
    requires NameMatches(e, name) && NameMatches(e, other)
    ensures name == other
  {}

  // ---- a directory's contents as a map ---------------------------------------------------------

  function Count(c: seq<Byte>): nat { |c| / ENTRY_SIZE }

  function EntryAt(c: seq<Byte>, i: nat): Entry
    requires i < Count(c)
  {
    c[ENTRY_SIZE * i..ENTRY_SIZE * i + ENTRY_SIZE]
  }

  /** The first entry from i on that matches. */
  function Find(c: seq<Byte>, name: Name, i: nat): (r: nat)
    requires i <= Count(c)
    ensures i <= r <= Count(c)
    ensures r < Count(c) ==> NameMatches(EntryAt(c, r), name)
    ensures forall k :: i <= k < r ==> !NameMatches(EntryAt(c, k), name)
    decreases Count(c) - i
  {
    if i == Count(c) || NameMatches(EntryAt(c, i), name) then i else Find(c, name, i + 1)
  }

  function LookupIn(c: seq<Byte>, name: Name): Option<nat>
  {
    var i := Find(c, name, 0);
    if i < Count(c) then Some(EntrySector(EntryAt(c, i))) else None
  }

  /** c' is c with entry i replaced or appended; other entries are the same. */
  ghost predicate EntryPut(c: seq<Byte>, c': seq<Byte>, i: nat, e: Entry)
  {
    && i < Count(c') && EntryAt(c', i) == e
    && (Count(c') == Count(c) || (i == Count(c) && Count(c') == i + 1))
    && forall k :: 0 <= k < Count(c) && k != i ==> EntryAt(c', k) == EntryAt(c, k)
  }

  /** No two entries in use answer to the same name. */
  ghost predicate Unique(c: seq<Byte>)
  {
    forall i, j, name :: 0 <= i < j < Count(c) && NameMatches(EntryAt(c, i), name) ==> !NameMatches(EntryAt(c, j), name)
  }

  lemma FindIs(c: seq<Byte>, name: Name, i: nat)
    requires i < Count(c) && NameMatches(EntryAt(c, i), name) && Unique(c)
    ensures Find(c, name, 0) == i
  {
    var j := Find(c, name, 0);
    assert NameMatches(EntryAt(c, j), name);
  }

  /** Putting an entry for a new name into a free or new slot adds exactly that name. */
  lemma AddedLookup(c: seq<Byte>, c': seq<Byte>, i: nat, name: Name, sector: nat, other: Name)
    requires Unique(c) && Proper(name) && sector < U32 && LookupIn(c, name) == None
    requires EntryPut(c, c', i, MakeEntry(name, sector)) && (i < Count(c) ==> EntryAt(c, i)[IN_USE] == 0)
    ensures LookupIn(c', other) == if other == name then Some(sector) else LookupIn(c, other)
  {
    AddedUnique(c, c', i, name, sector);
    EntryRoundTrip(name, sector, other);
    hide MakeEntry, EntrySector;
    if other == name {
      FindIs(c', name, i);
    } else {
      SameFinds(c, c', other, i);
    }
  }

  /** Contents that differ only in an entry that matches in neither look the name up alike. */
  lemma SameFinds(c: seq<Byte>, c': seq<Byte>, name: Name, i: nat)
    requires i < Count(c') && (Count(c') == Count(c) || (i == Count(c) && Count(c') == i + 1))
    requires forall k :: 0 <= k < Count(c) && k != i ==> EntryAt(c', k) == EntryAt(c, k)
    requires !NameMatches(EntryAt(c', i), name) && (i < Count(c) ==> !NameMatches(EntryAt(c, i), name))
    ensures LookupIn(c', name) == LookupIn(c, name)
  {
    hide EntryAt, NameMatches;
    forall k | 0 <= k < Count(c') && NameMatches(EntryAt(c', k), name)
      ensures k < Count(c) && EntryAt(c', k) == EntryAt(c, k)
    {
      assert k != i;
    }
    var j, j' := Find(c, name, 0), Find(c', name, 0);
    if j < Count(c) {
      assert EntryAt(c', j) == EntryAt(c, j);
    }
  }

  lemma AddedUnique(c: seq<Byte>, c': seq<Byte>, i: nat, name: Name, sector: nat)
    requires Unique(c) && Proper(name) && sector < U32 && LookupIn(c, name) == None
    requires EntryPut(c, c', i, MakeEntry(name, sector))
    ensures Unique(c')
  {
    var e := MakeEntry(name, sector);
    forall k, j, m | 0 <= k < j < Count(c') && NameMatches(EntryAt(c', k), m) ensures !NameMatches(EntryAt(c', j), m) {
      EntryRoundTrip(name, sector, m);
      hide EntryAt, MakeEntry, NameMatches;
      if k == i || j == i {
        var o := if k == i then j else k;
        assert EntryAt(c', o) == EntryAt(c, o) && !NameMatches(EntryAt(c, o), name);
      } else {
        assert EntryAt(c', k) == EntryAt(c, k) && EntryAt(c', j) == EntryAt(c, j);
      }
    }
  }

  /** Clearing the in-use flag of a name's entry removes exactly that name. */
  lemma RemovedLookup(c: seq<Byte>, c': seq<Byte>, i: nat, name: Name, other: Name)
    requires Unique(c) && i < Count(c) == Count(c') && NameMatches(EntryAt(c, i), name)
    requires EntryPut(c, c', i, EntryAt(c, i)[IN_USE := 0])
    ensures Unique(c')
    ensures LookupIn(c', other) == if other == name then None else LookupIn(c, other)
  {
    assert forall m :: !NameMatches(EntryAt(c', i), m);
    if other == name {
      forall k | 0 <= k < Count(c') ensures !NameMatches(EntryAt(c', k), name) {
        if k < i {
          assert !NameMatches(EntryAt(c, k), name);
        } else if k > i {
          assert !NameMatches(EntryAt(c, k), name);
        }
      }
    } else {
      if NameMatches(EntryAt(c, i), other) { OneName(EntryAt(c, i), name, other); }
      SameFinds(c, c', other, i);
    }
    forall k, j, m | 0 <= k < j < Count(c') && NameMatches(EntryAt(c', k), m) ensures !NameMatches(EntryAt(c', j), m) {
      if j != i && k != i { assert NameMatches(EntryAt(c, k), m); }
    }
  }

  /** A full entry written at its offset. */
  lemma WrittenEntry(c: seq<Byte>, i: nat, e: Entry)
    requires i <= Count(c)
    ensures EntryPut(c, Written(c, ENTRY_SIZE * i, e), i, e)
  {
    var c' := Written(c, ENTRY_SIZE * i, e);
    assert Count(c') == if i < Count(c) then Count(c) else i + 1;
    assert EntryAt(c', i) == e;
    forall k | 0 <= k < Count(c) && k != i ensures EntryAt(c', k) == EntryAt(c, k) {
      assert forall b :: 0 <= b < ENTRY_SIZE ==> EntryAt(c', k)[b] == EntryAt(c, k)[b];
    }
  }

  // ---- the operations --------------------------------------------------------------------------

  method ReadEntry(fs: FileSystem, dir: nat, offset: nat) returns (n: nat, e: Entry)
    requires fs.Ready() && fs.Readable(dir)
    modifies fs.cache
    ensures fs.Ready()
    ensures offset + ENTRY_SIZE <= Len(fs.disk, dir) ==>
              n == ENTRY_SIZE && Len(fs.disk, dir) <= MAX_BYTES &&
                  e == Contents(fs.disk, dir)[offset..offset + ENTRY_SIZE]
  {
    var buf := new Byte[ENTRY_SIZE](_ => 0);
    n := fs.ReadAt(dir, buf, ENTRY_SIZE, offset);
    e := buf[..];
    assert n == ENTRY_SIZE ==> buf[..n] == buf[..];
  }

  ghost function DirContents(fs: FileSystem, dir: nat): seq<Byte>
    requires fs.Readable(dir)
    reads fs
  {
    Contents(fs.disk, dir)
  }

  method ReadSlot(fs: FileSystem, dir: nat, i: nat) returns (n: nat, e: Entry)
    requires fs.Ready() && fs.Readable(dir) && i < Count(DirContents(fs, dir))
    modifies fs.cache
    ensures fs.Ready() && n == ENTRY_SIZE && e == EntryAt(DirContents(fs, dir), i)
  {
    n, e := ReadEntry(fs, dir, i * ENTRY_SIZE);
  }

  /** The loop of lookup and remove. */
  method Search(fs: FileSystem, dir: nat, name: Name) returns (i: nat, e: Entry)
    requires fs.Ready() && fs.Readable(dir)
    modifies fs.cache
    ensures fs.Ready()
    ensures i == Find(DirContents(fs, dir), name, 0) && (i < Count(DirContents(fs, dir)) ==>
                                                         e == EntryAt(DirContents(fs, dir), i))
  {
    var len := fs.Length(dir);
    ghost var c := DirContents(fs, dir);
    assert |c| == len;
    hide EntryAt, NameMatches, DirContents;
    i, e := 0, seq(ENTRY_SIZE, _ => 0);
    while i < len / ENTRY_SIZE
      invariant fs.Ready() && i <= Count(c) && Find(c, name, 0) == Find(c, name, i)
    {
      var n;
      n, e := ReadSlot(fs, dir, i);
      if n < ENTRY_SIZE { break; }
      if NameMatches(e, name) { return; }
      i := i + 1;
    }
  }

  /** lookup answers as the contents read as a map. */
  method Lookup(fs: FileSystem, dir: nat, name: Name) returns (r: Option<nat>)
    requires fs.Ready() && fs.Readable(dir)
    modifies fs.cache
    ensures fs.Ready() && r == LookupIn(DirContents(fs, dir), name)
  {
    var len := fs.Length(dir);
    var i, e := Search(fs, dir, name);
    r := if i < len / ENTRY_SIZE then Some(EntrySector(e)) else None;
  }

  /** The first slot not in use from i on, or the number of slots. */
  function FirstUnused(c: seq<Byte>, i: nat): (r: nat)
    requires i <= Count(c)
    ensures i <= r <= Count(c) && (r < Count(c) ==> EntryAt(c, r)[IN_USE] == 0)
    ensures forall k :: i <= k < r ==> EntryAt(c, k)[IN_USE] != 0
    decreases Count(c) - i
  {
    if i == Count(c) || EntryAt(c, i)[IN_USE] == 0 then i else FirstUnused(c, i + 1)
  }

  method SearchFree(fs: FileSystem, dir: nat) returns (i: nat)
    requires fs.Ready() && fs.Readable(dir)
    modifies fs.cache
    ensures fs.Ready() && i == FirstUnused(DirContents(fs, dir), 0)
  {
    hide CacheOk;
    var len := fs.Length(dir);
    ghost var c := DirContents(fs, dir);
    assert |c| == len;
    hide EntryAt, DirContents;
    i := 0;
    while i < len / ENTRY_SIZE
      invariant fs.Ready() && i <= Count(c) && FirstUnused(c, 0) == FirstUnused(c, i)
    {
      var n, e := ReadSlot(fs, dir, i);
      if n < ENTRY_SIZE { break; }
      if e[IN_USE] == 0 { return; }
      i := i + 1;
    }
  }

  lemma SameEntries(c: seq<Byte>, c': seq<Byte>, name: Name)
    requires Count(c') == Count(c) && forall k :: 0 <= k < Count(c) ==> EntryAt(c', k) == EntryAt(c, k)
    ensures LookupIn(c', name) == LookupIn(c, name)
  {
    hide EntryAt, NameMatches;
    var j, j' := Find(c, name, 0), Find(c', name, 0);
    assert j < Count(c) ==> EntryAt(c', j) == EntryAt(c, j);
    assert j' < Count(c) ==> EntryAt(c', j') == EntryAt(c, j');
  }

  /** A write cut short at the end of the directory adds no entry. */
  lemma WrittenShort(c: seq<Byte>, e: seq<Byte>)
    requires |e| < ENTRY_SIZE
    ensures var c' := Written(c, ENTRY_SIZE * Count(c), e);
            Count(c') == Count(c) && forall k :: 0 <= k < Count(c) ==> EntryAt(c', k) == EntryAt(c, k)
  {
    var c' := Written(c, ENTRY_SIZE * Count(c), e);
    assert Count(c') == Count(c);
    forall k | 0 <= k < Count(c) ensures EntryAt(c', k) == EntryAt(c, k) {
      assert forall b :: 0 <= b < ENTRY_SIZE ==> EntryAt(c', k)[b] == EntryAt(c, k)[b];
    }
  }

  /** A write cut short on an unused slot leaves it unused: the flag is its last byte. */
  lemma ReusedShort(c: seq<Byte>, i: nat, p: seq<Byte>)
    requires Unique(c) && i < Count(c) && EntryAt(c, i)[IN_USE] == 0 && |p| < ENTRY_SIZE
    ensures var c' := Written(c, ENTRY_SIZE * i, p); Unique(c') && forall m :: LookupIn(c', m) == LookupIn(c, m)
  {
    var c' := Written(c, ENTRY_SIZE * i, p);
    WrittenOver(c, i, p);
    hide EntryAt, Written, LookupIn;
    forall m ensures LookupIn(c', m) == LookupIn(c, m) { SameFinds(c, c', m, i); }
    forall k, j, m | 0 <= k < j < Count(c') && NameMatches(EntryAt(c', k), m) ensures !NameMatches(EntryAt(c', j), m) {
      if j != i { assert EntryAt(c', k) == EntryAt(c, k) && EntryAt(c', j) == EntryAt(c, j); }
    }
  }

  lemma WrittenOver(c: seq<Byte>, i: nat, p: seq<Byte>)
    requires i < Count(c) && |p| < ENTRY_SIZE
    ensures var c' := Written(c, ENTRY_SIZE * i, p);
            && Count(c') == Count(c) && EntryAt(c', i)[IN_USE] == EntryAt(c, i)[IN_USE]
            && forall k :: 0 <= k < Count(c) && k != i ==> EntryAt(c', k) == EntryAt(c, k)
  {
    var c' := Written(c, ENTRY_SIZE * i, p);
    forall k | 0 <= k < Count(c) && k != i ensures EntryAt(c', k) == EntryAt(c, k) {
      assert forall b :: 0 <= b < ENTRY_SIZE ==> EntryAt(c', k)[b] == EntryAt(c, k)[b];
    }
  }

  /** The name may be added. */
  predicate Addable(c: seq<Byte>, name: Name) { LookupIn(c, name).None? && |name| <= NAME_MAX }

  /** The sectors missing for entry i are free, and writes are not denied. */
  ghost predicate Writable(d: Disk, u: seq<bool>, open: map<nat, OpenInode>, dir: nat, i: nat)
  {
    !Denied(open, dir) && Need(d, dir, Touched(ENTRY_SIZE * i, ENTRY_SIZE)) <= FreeCount(u)
  }

  /** The directory maps the name to the sector, and all other names as before. */
  ghost predicate Mapped(c: seq<Byte>, c': seq<Byte>, name: Name, r: Option<nat>)
  {
    Unique(c') && forall m :: LookupIn(c', m) == if m == name then r else LookupIn(c, m)
  }

  lemma AddDoneBy(c: seq<Byte>, c': seq<Byte>, i: nat, n: nat, name: Name, sector: nat, denied: bool)
    requires Unique(c) && Proper(name) && sector < U32 && LookupIn(c, name) == None && i == FirstUnused(c, 0) &&
             n <= ENTRY_SIZE
    requires denied ==> n == 0 && c' == c
    requires !denied ==> c' == Written(c, ENTRY_SIZE * i, MakeEntry(name, sector)[..n])
    ensures Mapped(c, c', name, if !denied && n == ENTRY_SIZE then Some(sector) else None)
  {
    var e := MakeEntry(name, sector);
    hide MakeEntry, Unique, LookupIn, Written, EntryAt;
    if !denied {
      if n == ENTRY_SIZE {
        assert e[..n] == e;
        WrittenEntry(c, i, e);
        AddedUnique(c, c', i, name, sector);
        forall m ensures LookupIn(c', m) == if m == name then Some(sector) else LookupIn(c, m) {
          AddedLookup(c, c', i, name, sector, m);
        }
      } else if i == Count(c) {
        AppendedShort(c, e[..n]);
      } else {
        ReusedShort(c, i, e[..n]);
      }
    }
  }

  lemma AppendedShort(c: seq<Byte>, p: seq<Byte>)
    requires Unique(c) && |p| < ENTRY_SIZE
    ensures var c' := Written(c, ENTRY_SIZE * Count(c), p); Unique(c') && forall m :: LookupIn(c', m) == LookupIn(c, m)
  {
    var c' := Written(c, ENTRY_SIZE * Count(c), p);
    WrittenShort(c, p);
    hide LookupIn, Written, EntryAt;
    forall m ensures LookupIn(c', m) == LookupIn(c, m) { SameEntries(c, c', m); }
    forall k, j, m | 0 <= k < j < Count(c') && NameMatches(EntryAt(c', k), m) ensures !NameMatches(EntryAt(c', j), m) {
      assert EntryAt(c', k) == EntryAt(c, k) && EntryAt(c', j) == EntryAt(c, j);
    }
  }

  /** One entry written at slot i: in full exactly when writes are not denied and the sectors it
      misses are free. */
  method PutEntry(fs: FileSystem, dir: nat, i: nat, e: Entry) returns (n: nat)
    requires fs.Valid() && dir in fs.live && fs.Readable(dir) && ENTRY_SIZE * i + ENTRY_SIZE <= MAX_BYTES
    modifies fs`disk, fs`bitmap, fs`open, fs.cache
    ensures fs.Valid() && fs.Readable(dir) && n <= ENTRY_SIZE
    ensures n == ENTRY_SIZE <==> Writable(old(fs.disk), old(fs.Used()), old(fs.open), dir, i)
    ensures Denied(old(fs.open), dir) ==> n == 0 && DirContents(fs, dir) == old(DirContents(fs, dir))
    ensures !Denied(old(fs.open), dir) ==>
            DirContents(fs, dir) == Written(old(DirContents(fs, dir)), ENTRY_SIZE * i, e[..n])
    ensures |fs.disk| == |old(fs.disk)| && forall o :: o in fs.live && o != dir ==> SameFile(old(fs.disk), fs.disk, o)
    ensures SameHandles(old(fs.open), fs.open)
  {
    hide SameFile, Contents, Fits, InRange, Tree, FilesOk, OpenOk, NoneFree, Written, CacheOk, FreeCount, Need, Touched;
    n := fs.WriteAt(dir, e, ENTRY_SIZE, ENTRY_SIZE * i);
    fs.LiveReadable(dir);
  }

  /** add.  It reports true exactly when the name may be added and there is an unused slot or the
      entry can be written; it adds the name exactly when the name may be added and the entry can be
      written, whatever it reports; and no other name is looked up differently. */
  method Add(fs: FileSystem, dir: nat, name: Name, sector: nat) returns (ok: bool)
    requires fs.Valid() && dir in fs.live && fs.Readable(dir) && sector < U32 && forall i :: 0 <= i < |name| ==>
             name[i] != 0
    requires Unique(DirContents(fs, dir)) && |DirContents(fs, dir)| + ENTRY_SIZE <= MAX_BYTES
    modifies fs`disk, fs`bitmap, fs`open, fs.cache
    ensures fs.Valid() && fs.Readable(dir)
    ensures ok <==> AddReports(old(fs.disk), old(fs.Used()), old(fs.open), dir, old(DirContents(fs, dir)), name)
    ensures Mapped(old(DirContents(fs, dir)), DirContents(fs, dir), name,
                   if AddHappens(old(fs.disk), old(fs.Used()), old(fs.open), dir, old(DirContents(fs, dir)),
                                 name) then Some(sector)
                   else old(LookupIn(DirContents(fs, dir), name)))
    ensures |fs.disk| == |old(fs.disk)| && forall o :: o in fs.live && o != dir ==> SameFile(old(fs.disk), fs.disk, o)
    ensures SameHandles(old(fs.open), fs.open)
  {
    hide MakeEntry, Unique, LookupIn, EntryAt, SameFile, Contents, Fits, InRange, Tree, FilesOk, OpenOk, Written,
        CacheOk, Writable, FirstUnused;
    SameFileRefl(fs.disk, fs.Used(), fs.live);
    ghost var c := DirContents(fs, dir);
    MappedSelf(c, name);
    var found := Lookup(fs, dir, name);
    if found.Some? { return false; }
    if |name| > NAME_MAX { return false; }
    var len := fs.Length(dir);
    var i := SearchFree(fs, dir);
    hide DirContents;
    var n := PutEntry(fs, dir, i, MakeEntry(name, sector));
    ok := i < len / ENTRY_SIZE || n == ENTRY_SIZE;
    AddDoneBy(c, DirContents(fs, dir), i, n, name, sector, Denied(old(fs.open), dir));
  }

  lemma MappedSelf(c: seq<Byte>, name: Name)
    requires Unique(c)
    ensures Mapped(c, c, name, LookupIn(c, name))
  {}

  ghost predicate AddReports(d: Disk, u: seq<bool>, open: map<nat, OpenInode>, dir: nat, c: seq<Byte>, name: Name)
  {
    Addable(c, name) && (FirstUnused(c, 0) < Count(c) || Writable(d, u, open, dir, FirstUnused(c, 0)))
  }

  ghost predicate AddHappens(d: Disk, u: seq<bool>, open: map<nat, OpenInode>, dir: nat, c: seq<Byte>, name: Name)
  {
    Addable(c, name) && Writable(d, u, open, dir, FirstUnused(c, 0))
  }

  /** A true result is a true one for every name exactly when the entry can be written or there is no
      unused slot; a false one always is. */
  lemma AddHonest(d: Disk, u: seq<bool>, open: map<nat, OpenInode>, dir: nat, c: seq<Byte>, name: Name)
    requires Addable(c, name)
    ensures (AddReports(d, u, open, dir, c, name) <==> AddHappens(d, u, open, dir, c, name)) <==>
            Writable(d, u, open, dir, FirstUnused(c, 0)) || FirstUnused(c, 0) == Count(c)
    ensures AddHappens(d, u, open, dir, c, name) ==> AddReports(d, u, open, dir, c, name)
  {}

  const DOT: Name := [46]
  const DOT_DOT: Name := [46, 46]

  /** An entry that does not keep a directory from being removed. */
  predicate Ignored(e: Entry) { e[IN_USE] == 0 || e[4..4 + NameEnd(e, 0)] == DOT || e[4..4 + NameEnd(e, 0)] == DOT_DOT }

  lemma IgnoredMeans(e: Entry)
    ensures Ignored(e) <==> forall name :: NameMatches(e, name) ==> name == DOT || name == DOT_DOT
  {
    var n := NameEnd(e, 0);
    if e[IN_USE] != 0 { assert NameMatches(e, e[4..4 + n]); }
  }

  predicate AllIgnored(c: seq<Byte>, n: nat)
    requires n <= Count(c)
  {
    forall i :: 0 <= i < n ==> Ignored(EntryAt(c, i))
  }

  lemma AllIgnoredNext(c: seq<Byte>, i: nat)
    requires i < Count(c) && AllIgnored(c, i)
    ensures AllIgnored(c, i + 1) <==> Ignored(EntryAt(c, i))
    ensures AllIgnored(c, Count(c)) ==> Ignored(EntryAt(c, i))
  {}

  /** is_empty: no entry in use but "." and "..". */
  method IsEmpty(fs: FileSystem, dir: nat) returns (b: bool)
    requires fs.Ready() && fs.Readable(dir)
    modifies fs.cache
    ensures fs.Ready()
    ensures b <==> AllIgnored(DirContents(fs, dir), Count(DirContents(fs, dir)))
  {
    var len := fs.Length(dir);
    ghost var c := DirContents(fs, dir);
    assert |c| == len;
    assert AllIgnored(c, 0);
    hide EntryAt, DirContents, Ignored, AllIgnored;
    var i := 0;
    while i < len / ENTRY_SIZE
      invariant fs.Ready() && i <= Count(c) && AllIgnored(c, i)
    {
      var n, e := ReadSlot(fs, dir, i);
      if n < ENTRY_SIZE { break; }
      AllIgnoredNext(c, i);
      if !Ignored(e) { return false; }
      i := i + 1;
    }
    return true;
  }

  /** Every entry in use names a live inode. */
  ghost predicate EntriesLive(c: seq<Byte>, live: set<nat>)
  {
    forall i :: 0 <= i < Count(c) && EntryAt(c, i)[IN_USE] != 0 ==> EntrySector(EntryAt(c, i)) in live
  }

  lemma RemoveDone(c: seq<Byte>, c': seq<Byte>, i: nat, name: Name)
    requires Unique(c) && i < Count(c) && NameMatches(EntryAt(c, i), name)
    requires var e: Entry := EntryAt(c, i)[IN_USE := 0]; c' == Written(c, ENTRY_SIZE * i, e)
    ensures Mapped(c, c', name, None)
  {
    WrittenEntry(c, i, EntryAt(c, i)[IN_USE := 0]);
    hide Unique, LookupIn, Written, EntryAt;
    forall m ensures Unique(c') && LookupIn(c', m) == if m == name then None else LookupIn(c, m) {
      RemovedLookup(c, c', i, name, m);
    }
  }

  /** Cut short, the write only repeats bytes that are there. */
  lemma ClearedShort(c: seq<Byte>, i: nat, e: Entry, n: nat)
    requires i < Count(c) && n < ENTRY_SIZE && e == EntryAt(c, i)[IN_USE := 0]
    ensures Written(c, ENTRY_SIZE * i, e[..n]) == c
  {}

  lemma SlotInFile(d: Disk, dir: nat, i: nat)
    requires InRange(d, dir) && Fits(d, dir, Len(d, dir)) && i < Count(Contents(d, dir))
    ensures ENTRY_SIZE * i + ENTRY_SIZE <= MAX_BYTES
  {}

  /** The entry is cleared exactly when writes are not denied and the sectors it misses are free;
      otherwise nothing changes. */
  method ClearEntry(fs: FileSystem, dir: nat, i: nat, e: Entry, ghost name: Name)
    requires fs.Valid() && dir in fs.live && fs.Readable(dir) && Unique(DirContents(fs, dir))
    requires i < Count(DirContents(fs, dir)) && e == EntryAt(DirContents(fs, dir), i) && NameMatches(e, name)
    modifies fs`disk, fs`bitmap, fs`open, fs.cache
    ensures fs.Valid() && fs.Readable(dir)
    ensures if Writable(old(fs.disk), old(fs.Used()), old(fs.open), dir, i)
            then Mapped(old(DirContents(fs, dir)), DirContents(fs, dir), name, None)
                else DirContents(fs, dir) == old(DirContents(fs, dir))
    ensures |fs.disk| == |old(fs.disk)| && forall o :: o in fs.live && o != dir ==> SameFile(old(fs.disk), fs.disk, o)
    ensures SameHandles(old(fs.open), fs.open)
  {
    hide Unique, LookupIn, EntryAt, NameMatches, SameFile, NoneFree, Written, Mapped, CacheOk, Writable, Tree,
        FilesOk, OpenOk, Contents, Fits, InRange;
    ghost var c := DirContents(fs, dir);
    SlotInFile(fs.disk, dir, i);
    var clear: Entry := e[IN_USE := 0];
    var n := PutEntry(fs, dir, i, clear);
    if n == ENTRY_SIZE {
      assert clear[..n] == clear;
      RemoveDone(c, DirContents(fs, dir), i, name);
    } else {
      ClearedShort(c, i, clear, n);
    }
  }

  /** Whether remove goes ahead: the target is a file or an empty directory. */
  method MayRemove(fs: FileSystem, target: nat) returns (ok: bool)
    requires fs.Valid() && target in fs.live
    modifies fs.cache
    ensures fs.Valid() && fs.Readable(target)
    ensures ok == (IsDir(fs.disk, target) ==> AllIgnored(DirContents(fs, target), Count(DirContents(fs, target))))
  {
    hide CacheOk, Tree, FilesOk, AllIgnored;
    fs.LiveReadable(target);
    LiveInRange(fs.disk, fs.Used(), fs.live, target);
    ok := fs.IsDirectory(target);
    if ok { ok := IsEmpty(fs, target); } else { ok := true; }
  }

  /** The name is there and stands for a file or for a directory with only the two dots. */
  ghost predicate Removable(d: Disk, c: seq<Byte>, name: Name)
  {
    && LookupIn(c, name).Some?
    && var t := LookupIn(c, name).value;
       t < |d| && Len(d, t) <= MAX_BYTES && (IsDir(d, t) ==> AllIgnored(Contents(d, t), Count(Contents(d, t))))
  }

  ghost function MarkRemoved(open: map<nat, OpenInode>, ino: nat): map<nat, OpenInode>
  {
    if ino in open then open[ino := open[ino].(removed := true)] else open
  }

  ghost predicate RemoveHappens(d: Disk, u: seq<bool>, open: map<nat, OpenInode>, dir: nat, c: seq<Byte>, name: Name)
  {
    Removable(d, c, name) && Writable(d, u, open, dir, Find(c, name, 0))
  }

  /** remove.  It reports true, and marks the target, exactly for a name that is there and stands for
      a file or an empty directory; the name is gone exactly when besides the entry can be written;
      and no other name is looked up differently. */
  method Remove(fs: FileSystem, dir: nat, name: Name) returns (ok: bool)
    requires fs.Valid() && dir in fs.live && fs.Readable(dir)
    requires Unique(DirContents(fs, dir)) && EntriesLive(DirContents(fs, dir), fs.live)
    modifies fs`disk, fs`bitmap, fs`open, fs.cache
    ensures fs.Valid() && fs.Readable(dir)
    ensures ok <==> Removable(old(fs.disk), old(DirContents(fs, dir)), name)
    ensures !ok ==> fs.disk == old(fs.disk) && fs.open == old(fs.open)
    ensures ok ==> SameHandles(MarkRemoved(old(fs.open), old(LookupIn(DirContents(fs, dir), name)).value), fs.open)
    ensures Mapped(old(DirContents(fs, dir)), DirContents(fs, dir), name,
                   if RemoveHappens(old(fs.disk), old(fs.Used()), old(fs.open), dir, old(DirContents(fs, dir)),
                                    name) then None
                   else old(LookupIn(DirContents(fs, dir), name)))
    ensures |fs.disk| == |old(fs.disk)| && forall o :: o in fs.live && o != dir ==> SameFile(old(fs.disk), fs.disk, o)
  {
    hide CacheOk, Mapped, SameFile, Writable, Tree, FilesOk, OpenOk, AllIgnored, Contents;
    SameFileRefl(fs.disk, fs.Used(), fs.live);
    ghost var c := DirContents(fs, dir);
    MappedSelf(c, name);
    var len := fs.Length(dir);
    var i, e := Search(fs, dir, name);
    if i >= len / ENTRY_SIZE { return false; }
    var target := EntrySector(e);
    assert target in fs.live && i < Count(c) && NameMatches(e, name) && LookupIn(c, name) == Some(target);
    hide Unique, EntryAt, EntrySector, NameMatches;
    var allowed := MayRemove(fs, target);
    if !allowed { return false; }
    fs.Remove(target);
    fs.LiveReadable(dir);
    WritableSame(fs.disk, fs.Used(), old(fs.open), fs.open, dir, i);
    ClearEntry(fs, dir, i, e, name);
    ok := true;
  }

  lemma WritableSame(d: Disk, u: seq<bool>, open: map<nat, OpenInode>, open': map<nat, OpenInode>, dir: nat, i: nat)
    requires Denied(open', dir) == Denied(open, dir)
    ensures Writable(d, u, open', dir, i) == Writable(d, u, open, dir, i)
  {}
}
