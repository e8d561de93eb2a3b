/**
 The program loader: the page table entries made for the segments of an ELF file, and the bytes a
 program finds in its pages when they are loaded through them.
 */
module VmLoader {
  import opened FsBytes
  import opened VmPage
  import opened VmLife
  import opened VmRun

  /** A loadable program header. */
  datatype Segment = Segment(vaddr: nat, filesz: nat, memsz: nat, fileOff: nat)

  /** What the loader makes of them: one range of addresses, backed by one range of the file. */
  datatype Span = Span(base: nat, foff: nat, end: nat, endFile: nat)

  predicate Lowest(segs: seq<Segment>, i: nat)
  {
    && i < |segs| && (forall j :: 0 <= j < |segs| ==> segs[i].vaddr <= segs[j].vaddr)
    && (forall j :: 0 <= j < i ==> segs[i].vaddr < segs[j].vaddr)
  }

  /** From the lowest address on, at the first lowest segment's file offset, to the highest ends. */
  ghost predicate SpanOf(segs: seq<Segment>, sp: Span)
  {
    && (exists i: nat :: Lowest(segs, i) && sp.base == segs[i].vaddr && sp.foff == segs[i].fileOff)
    && (forall i :: 0 <= i < |segs| ==> segs[i].vaddr + segs[i].memsz <= sp.end)
    && (exists i :: 0 <= i < |segs| && segs[i].vaddr + segs[i].memsz == sp.end)
    && (forall i :: 0 <= i < |segs| ==> segs[i].vaddr + segs[i].filesz <= sp.endFile)
    && (exists i :: 0 <= i < |segs| && segs[i].vaddr + segs[i].filesz == sp.endFile)
  }

  method FindSpan(segs: seq<Segment>) returns (sp: Span)
    requires segs != []
    ensures SpanOf(segs, sp)
  {
    ghost var low, high, last := 0, 0, 0;
    var s0 := segs[0];
    sp := Span(s0.vaddr, s0.fileOff, s0.vaddr + s0.memsz, s0.vaddr + s0.filesz);
    for i := 1 to |segs|
      invariant low < i && high < i && last < i
      invariant sp == Span(segs[low].vaddr, segs[low].fileOff, segs[high].vaddr + segs[high].memsz,
                           segs[last].vaddr + segs[last].filesz)
      invariant forall j :: 0 <= j < i ==> segs[low].vaddr <= segs[j].vaddr
      invariant forall j :: 0 <= j < low ==> segs[low].vaddr < segs[j].vaddr
      invariant forall j :: 0 <= j < i ==> segs[j].vaddr + segs[j].memsz <= sp.end
      invariant forall j :: 0 <= j < i ==> segs[j].vaddr + segs[j].filesz <= sp.endFile
    {
      var s := segs[i];
      if s.vaddr < sp.base {
        sp, low := sp.(base := s.vaddr, foff := s.fileOff), i;
      }
      if s.vaddr + s.memsz > sp.end {
        sp, high := sp.(end := s.vaddr + s.memsz), i;
      }
      if s.vaddr + s.filesz > sp.endFile {
        sp, last := sp.(endFile := s.vaddr + s.filesz), i;
      }
    }
    assert Lowest(segs, low);
  }

  function PageOf(v: nat): (p: nat)
    ensures p <= v < p + PGSIZE
  {
    v - v % PGSIZE
  }

  predicate IsPage(p: nat) { p % PGSIZE == 0 }

  /** The entry's place, length and file offset for the part of the page that the file backs. */
  ghost predicate EntryFor(sp: Span, inode: nat, page: nat, e: Entry)
  {
    var lo, hi := if page < sp.base then sp.base else page, Min(page + PGSIZE, sp.endFile);
    && e.kind == Binary && e.inode == inode
    && if lo < hi then
         && e.location == OnDisk && e.readBytes == hi - lo && e.pageOfs == lo - page
         && e.fileOffset == sp.foff + (lo - sp.base)
       else e.location == Zero && e.readBytes == 0 && e.pageOfs == 0 && e.fileOffset == 0
  }

  /** The pages from the span's first up to the one at upTo have entries. */
  ghost predicate EntriesFor(sp: Span, spt: map<nat, Entry>, upTo: nat)
  {
    forall p: nat :: p in spt <==> IsPage(p) && PageOf(sp.base) <= p < upTo && p < sp.end
  }

  method MakeEntry(sp: Span, inode: nat, page: nat) returns (e: Entry)
    ensures EntryFor(sp, inode, page, e)
  {
    var pageEnd := page + PGSIZE;
    var start := if page < sp.base then sp.base else page;
    var end := if pageEnd < sp.endFile then pageEnd else sp.endFile;
    var readBytes, pageOfs, fileOffset := 0, 0, 0;
    if end > start {
      readBytes, pageOfs, fileOffset := end - start, start - page, sp.foff + (start - sp.base);
    }
    var location := if readBytes > 0 then OnDisk else Zero;
    e := Entry(location, Binary, inode, fileOffset, readBytes, pageOfs);
  }

  /** The loop that enters the program's pages. */
  method MakeEntries(segs: seq<Segment>, inode: nat) returns (spt: map<nat, Entry>, sp: Span)
    requires segs != []
    ensures SpanOf(segs, sp)
    ensures EntriesFor(sp, spt, sp.end)
    ensures forall p :: p in spt ==> EntryFor(sp, inode, p, spt[p])
  {
    hide EntryFor, SpanOf;
    sp := FindSpan(segs);
    spt := map[];
    var page := PageOf(sp.base);
    PageOfIsPage(sp.base);
    assert EntriesFor(sp, spt, page);
    while page < sp.end
      invariant IsPage(page) && page >= PageOf(sp.base)
      invariant EntriesFor(sp, spt, page)
      invariant forall p :: p in spt ==> EntryFor(sp, inode, p, spt[p])
      decreases sp.end + PGSIZE - page
    {
      if page !in spt {
        var e := MakeEntry(sp, inode, page);
        ghost var spt0 := spt;
        spt := spt[page := e];
        EntriesNext(sp, spt0, spt, page);
      }
      NextPage(page);
      page := page + PGSIZE;
    }
  }

  lemma NextPage(p: nat)
    requires IsPage(p)
    ensures IsPage(p + PGSIZE)
  {}

  lemma PageOfIsPage(v: nat)
    ensures IsPage(PageOf(v))
  {}

  lemma EntriesNext(sp: Span, spt: map<nat, Entry>, spt': map<nat, Entry>, page: nat)
    requires EntriesFor(sp, spt, page) && IsPage(page) && PageOf(sp.base) <= page < sp.end
    requires spt'.Keys == spt.Keys + {page}
    ensures EntriesFor(sp, spt', page + PGSIZE)
  {
    forall p: nat | IsPage(p) && page < p < page + PGSIZE ensures false {}
  }

  // ---- what the program finds ------------------------------------------------------------------------

  /** The byte of the program at an address: the file's, where it backs the span, and zero elsewhere. */
  function ProgramByte(sp: Span, file: seq<Byte>, v: nat): Byte
  {
    if sp.base <= v < sp.endFile && sp.foff + (v - sp.base) < |file| then file[sp.foff + (v - sp.base)] else 0
  }

  lemma EntryByte(sp: Span, inode: nat, files: Files, page: nat, e: Entry, b: nat)
    requires EntryFor(sp, inode, page, e) && inode in files && b < PGSIZE
    ensures WfEntry(e) && Homed(e) && !e.location.InSwap? && e.location != InMemory
    ensures Reloaded(e, files)[b] == ProgramByte(sp, files[inode], page + b)
    ensures (if e.location == OnDisk then FileBytes(e, files) else ZeroPage())[b] ==
            ProgramByte(sp, files[inode], page + b)
  {}

  /** The program's pages side by side are the program: whatever page is loaded, from wherever
      eviction leaves it, each address holds the program's byte. */
  lemma PagesAreProgram(sp: Span, inode: nat, files: Files, spt: map<nat, Entry>, v: nat)
    requires EntriesFor(sp, spt, sp.end)
    requires (forall p :: p in spt ==> EntryFor(sp, inode, p, spt[p])) && inode in files && sp.base <= v < sp.end
    ensures PageOf(v) in spt && Backing(spt[PageOf(v)], files)[v % PGSIZE] == ProgramByte(sp, files[inode], v)
  {
    PageOfIsPage(v);
    PageOrder(sp.base, v);
    EntryByte(sp, inode, files, PageOf(v), spt[PageOf(v)], v % PGSIZE);
    ReloadedIsBacking(spt[PageOf(v)], files);
  }

  lemma PageOrder(u: nat, v: nat)
    requires u <= v
    ensures PageOf(u) <= PageOf(v)
  {}

  /** In every run from the entries the loader makes, a page nobody has written holds the program's bytes,
      in memory or out of it, evicted and reloaded as often as may be. */
  lemma ProgramInEveryRun(ss: seq<State>, ops: seq<Op>, files: Files, k: Key, i: nat, sp: Span, inode: nat, b: nat)
    requires Run(ss, ops, files) && i < |ss| && Ok(ss[0]) && k in ss[0].spt && Stands(ops, k, i)
    requires EntryFor(sp, inode, k.1, ss[0].spt[k]) && inode in files && b < PGSIZE && !WrittenIn(ops[..i], k)
    ensures Ok(ss[i]) && k in ss[i].spt
    ensures PageBytes(ss[i], k, files)[b] == ProgramByte(sp, files[inode], k.1 + b)
  {
    var e := ss[0].spt[k];
    EntryByte(sp, inode, files, k.1, e, b);
    HomeBytes(ss[0], k, files);
    hide Ok, PageBytes, Reloaded, EntryFor, ProgramByte, Step;
    RunBytes(ss, ops, files, k, i);
    NeverWritten(ss, ops, k, i, files);
  }

  lemma {:induction false} NeverWritten(ss: seq<State>, ops: seq<Op>, k: Key, i: nat, files: Files)
    requires |ss| == |ops| + 1 && i <= |ops| && Ok(ss[0]) && k in ss[0].spt && !WrittenIn(ops[..i], k)
    ensures Intended(ss, ops, k, i, files) == PageBytes(ss[0], k, files)
  {
    hide Ok, PageBytes, WrittenIn;
    if i > 0 {
      WrittenNext(ops, k, i - 1);
      NeverWritten(ss, ops, k, i - 1, files);
    }
  }

  // ---- and what its headers say --------------------------------------------------------------------

  /** Byte i of the segment is the one its header names, as far as the file goes. */
  predicate ByteRight(sp: Span, s: Segment, file: seq<Byte>, i: nat)
  {
    s.fileOff + i < |file| ==> ProgramByte(sp, file, s.vaddr + i) == file[s.fileOff + i]
  }

  ghost predicate SegmentRight(sp: Span, s: Segment, file: seq<Byte>)
  {
    forall i :: 0 <= i < s.filesz ==> ByteRight(sp, s, file, i)
  }

  predicate ByteZero(sp: Span, s: Segment, file: seq<Byte>, i: nat) { ProgramByte(sp, file, s.vaddr + i) == 0 }

  /** The rest of the segment is zero. */
  ghost predicate RestZero(sp: Span, s: Segment, file: seq<Byte>)
  {
    forall i :: s.filesz <= i < s.memsz ==> ByteZero(sp, s, file, i)
  }

  function OneByteFile(n: nat): (file: seq<Byte>)
    ensures |file| == n + 1 && forall i :: 0 <= i < |file| ==> file[i] == if i == n then 1 else 0
  {
    seq(n, _ => 0) + [1]
  }

  /** One range of the file for all segments: a segment is right for every file exactly if its offset
      and address differ by as much as those of the lowest. */
  lemma SegmentRightIff(sp: Span, s: Segment)
    requires sp.base <= s.vaddr && s.vaddr + s.filesz <= sp.endFile
    ensures (forall file :: SegmentRight(sp, s, file)) <==>
            s.filesz == 0 || s.fileOff + sp.base == sp.foff + s.vaddr
  {
    if s.filesz > 0 && s.fileOff + sp.base != sp.foff + s.vaddr {
      assert !ByteRight(sp, s, OneByteFile(s.fileOff), 0);
      assert !SegmentRight(sp, s, OneByteFile(s.fileOff));
    }
  }

  /** What lies past a segment's file bytes is zero for every file exactly if it lies past those of all. */
  lemma RestZeroIff(sp: Span, s: Segment)
    requires sp.base <= s.vaddr
    ensures (forall file :: RestZero(sp, s, file)) <==> s.memsz <= s.filesz || sp.endFile <= s.vaddr + s.filesz
  {
    if s.filesz < s.memsz && s.vaddr + s.filesz < sp.endFile {
      var file := OneByteFile(sp.foff + (s.vaddr + s.filesz - sp.base));
      assert !ByteZero(sp, s, file, s.filesz);
      assert !RestZero(sp, s, file);
    }
  }

  /** Code at 0x1000 and data at 0x3000, next to each other in the file but not in memory; and data whose
      four zero bytes are followed by more data. */
  const APART: seq<Segment> := [Segment(0x1000, 16, 16, 0x1000), Segment(0x3000, 4, 4, 0x2000)]
  const BETWEEN: seq<Segment> := [Segment(0x1000, 4, 8, 0x1000), Segment(0x1008, 4, 4, 0x1008)]

  /** For the first the program finds zeros where its data should be, and for the second the file's
      bytes where zeros should be. */
  lemma SegmentsMisplaced()
    ensures var sp := Span(0x1000, 0x1000, 0x3004, 0x3004);
            SpanOf(APART, sp) && !SegmentRight(sp, APART[1], OneByteFile(0x2000))
    ensures var sp := Span(0x1000, 0x1000, 0x100c, 0x100c);
            SpanOf(BETWEEN, sp) && !RestZero(sp, BETWEEN[0], OneByteFile(0x1004))
  {
    var sp, sp' := Span(0x1000, 0x1000, 0x3004, 0x3004), Span(0x1000, 0x1000, 0x100c, 0x100c);
    assert Lowest(APART, 0) && APART[1].vaddr + APART[1].memsz == 0x3004;
    assert Lowest(BETWEEN, 0) && BETWEEN[1].vaddr + BETWEEN[1].memsz == 0x100c;
    assert !ByteRight(sp, APART[1], OneByteFile(0x2000), 0);
    assert !ByteZero(sp', BETWEEN[0], OneByteFile(0x1004), 4);
  }
}
