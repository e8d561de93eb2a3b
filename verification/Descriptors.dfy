/**
 Descriptor tables and the reference counts of pipe ends: over every run of pipe, dup, fork,
 close and exit the counts are the numbers of descriptors.
 */
module Descriptors {

  import opened Options

  datatype Kind = FileDesc | PipeRead(id: nat) | PipeWrite(id: nat) | Console | DevNull | DevZero

  type Table = seq<Option<Kind>>

  /** Reference counts of the two ends of a pipe. */
  datatype Ends = Ends(readers: nat, writers: nat)

  // ---- counting descriptors -------------------------------------------------------------------------

  function One(s: Option<Kind>, k: Kind): nat { if s == Some(k) then 1 else 0 }

  function InTable(t: Table, k: Kind): nat
  {
    if t == [] then 0 else InTable(t[..|t| - 1], k) + One(t[|t| - 1], k)
  }

  function InAll(ts: seq<Table>, k: Kind): nat
  {
    if ts == [] then 0 else InAll(ts[..|ts| - 1], k) + InTable(ts[|ts| - 1], k)
  }

  lemma {:induction false} TableUpdate(t: Table, i: nat, s: Option<Kind>, k: Kind)
    requires i < |t|
    ensures InTable(t[i := s], k) + One(t[i], k) == InTable(t, k) + One(s, k)
  {
    var n := |t| - 1;
    if i < n {
      TableUpdate(t[..n], i, s, k);
      assert t[i := s][..n] == t[..n][i := s];
    } else {
      assert t[i := s][..n] == t[..n];
    }
  }

  lemma TablePush(t: Table, s: Option<Kind>, k: Kind)
    ensures InTable(t + [s], k) == InTable(t, k) + One(s, k)
  {
    assert (t + [s])[..|t|] == t;
  }

  lemma {:induction false} AllUpdate(ts: seq<Table>, p: nat, t: Table, k: Kind)
    requires p < |ts|
    ensures InAll(ts[p := t], k) + InTable(ts[p], k) == InAll(ts, k) + InTable(t, k)
  {
    var n := |ts| - 1;
    if p < n {
      AllUpdate(ts[..n], p, t, k);
      assert ts[p := t][..n] == ts[..n][p := t];
    } else {
      assert ts[p := t][..n] == ts[..n];
    }
  }

  lemma AllPush(ts: seq<Table>, t: Table, k: Kind)
    ensures InAll(ts + [t], k) == InAll(ts, k) + InTable(t, k)
  {
    assert (ts + [t])[..|ts|] == ts;
  }

  lemma {:induction false} InTableMember(t: Table, k: Kind)
    ensures InTable(t, k) > 0 <==> Some(k) in t
  {
    if t != [] {
      var n := |t| - 1;
      InTableMember(t[..n], k);
      assert t == t[..n] + [t[n]];
    }
  }

  lemma {:induction false} InAllMember(ts: seq<Table>, p: nat, k: Kind)
    requires p < |ts|
    ensures InTable(ts[p], k) <= InAll(ts, k)
  {
    var n := |ts| - 1;
    if p < n { InAllMember(ts[..n], p, k); }
  }

  // ---- the invariant ----------------------------------------------------------------------------------

  /** Counts are numbers of descriptors; a pipe is registered as long as it has one, and no longer. */
  ghost predicate Counted(ts: seq<Table>, pipes: map<nat, Ends>)
  {
    && (forall id :: id in pipes ==>
        pipes[id].readers == InAll(ts, PipeRead(id)) && pipes[id].writers == InAll(ts, PipeWrite(id)))
    && (forall id :: id in pipes <==> InAll(ts, PipeRead(id)) + InAll(ts, PipeWrite(id)) > 0)
  }

  /** Counts as they stand after one end of pipe id was entered in or taken out of the tables. */
  ghost predicate CountsMoved(ts: seq<Table>, ts': seq<Table>, k: Kind, by': int)
  {
    forall m: Kind :: IsPipe(m) ==> InAll(ts', m) == InAll(ts, m) + if m == k then by' else 0
  }

  function Add(e: Ends, k: Kind, n: int): (r: Ends)
    requires k.PipeRead? ==> e.readers + n >= 0
    requires k.PipeWrite? ==> e.writers + n >= 0
  {
    match k
    case PipeRead(_) => e.(readers := e.readers + n)
    case PipeWrite(_) => e.(writers := e.writers + n)
    case _ => e
  }

  predicate IsPipe(k: Kind) { k.PipeRead? || k.PipeWrite? }

  /** The registry after a reference to k is added. */
  function Referenced(pipes: map<nat, Ends>, k: Kind): map<nat, Ends>
  {
    if IsPipe(k) && k.id in pipes then pipes[k.id := Add(pipes[k.id], k, 1)] else pipes
  }

  /** The registry after a reference to k is dropped: gone when both ends are. */
  function Dropped(pipes: map<nat, Ends>, k: Kind): map<nat, Ends>
    requires IsPipe(k) && k.id in pipes ==>
             (k.PipeRead? ==> pipes[k.id].readers > 0) && (k.PipeWrite? ==> pipes[k.id].writers > 0)
  {
    if IsPipe(k) && k.id in pipes then
      var e := Add(pipes[k.id], k, -1);
      if e.readers == 0 && e.writers == 0 then pipes - {k.id} else pipes[k.id := e]
    else pipes
  }

  lemma ReferencedCounts(ts: seq<Table>, ts': seq<Table>, pipes: map<nat, Ends>, k: Kind)
    requires Counted(ts, pipes) && CountsMoved(ts, ts', k, 1) && (IsPipe(k) ==> k.id in pipes)
    ensures Counted(ts', Referenced(pipes, k))
  {
    hide InAll;
  }

  lemma DroppedCounts(ts: seq<Table>, ts': seq<Table>, pipes: map<nat, Ends>, k: Kind)
    requires Counted(ts, pipes) && CountsMoved(ts, ts', k, -1)
    ensures IsPipe(k) ==> k.id in pipes && (if k.PipeRead? then pipes[k.id].readers > 0 else pipes[k.id].writers > 0)
    ensures Counted(ts', Dropped(pipes, k))
  {
    hide InAll;
    if IsPipe(k) { assert InAll(ts', k) == InAll(ts, k) - 1; }
  }

  // ---- table changes ------------------------------------------------------------------------------------

  lemma SlotChanged(ts: seq<Table>, p: nat, i: nat, s: Option<Kind>, m: Kind)
    requires p < |ts| && i < |ts[p]|
    ensures InAll(ts[p := ts[p][i := s]], m) + One(ts[p][i], m) == InAll(ts, m) + One(s, m)
  {
    TableUpdate(ts[p], i, s, m);
    AllUpdate(ts, p, ts[p][i := s], m);
  }

  lemma SlotFilled(ts: seq<Table>, p: nat, i: nat, k: Kind)
    requires p < |ts| && i < |ts[p]| && ts[p][i] == None
    ensures CountsMoved(ts, ts[p := ts[p][i := Some(k)]], k, 1)
  {
    var ts' := ts[p := ts[p][i := Some(k)]];
    forall m: Kind | IsPipe(m) ensures InAll(ts', m) == InAll(ts, m) + if m == k then 1 else 0 {
      SlotChanged(ts, p, i, Some(k), m);
    }
  }

  lemma SlotCleared(ts: seq<Table>, p: nat, i: nat, k: Kind)
    requires p < |ts| && i < |ts[p]| && ts[p][i] == Some(k)
    ensures CountsMoved(ts, ts[p := ts[p][i := None]], k, -1)
  {
    var ts' := ts[p := ts[p][i := None]];
    forall m: Kind | IsPipe(m) ensures InAll(ts', m) == InAll(ts, m) + if m == k then -1 else 0 {
      SlotChanged(ts, p, i, None, m);
    }
  }

  lemma SlotPushed(ts: seq<Table>, p: nat, k: Kind)
    requires p < |ts|
    ensures CountsMoved(ts, ts[p := ts[p] + [Some(k)]], k, 1)
  {
    var ts' := ts[p := ts[p] + [Some(k)]];
    forall m: Kind | IsPipe(m) ensures InAll(ts', m) == InAll(ts, m) + if m == k then 1 else 0 {
      TablePush(ts[p], Some(k), m);
      AllUpdate(ts, p, ts[p] + [Some(k)], m);
    }
  }

  /** A table that names no pipe changes no count. */
  lemma PlainTable(ts: seq<Table>, t: Table, pipes: map<nat, Ends>)
    requires Counted(ts, pipes) && forall i :: 0 <= i < |t| ==> t[i].None? || !IsPipe(t[i].value)
    ensures Counted(ts + [t], pipes)
  {
    forall m: Kind | IsPipe(m) ensures InAll(ts + [t], m) == InAll(ts, m) {
      AllPush(ts, t, m);
      InTableMember(t, m);
    }
    hide InAll;
  }

  /** The lowest free slot, or the length of the table. */
  function LowestFree(t: Table): (i: nat)
    ensures i <= |t| && (i < |t| ==> t[i] == None) && forall j :: 0 <= j < i ==> t[j] != None
  {
    if t == [] || t[0] == None then 0 else 1 + LowestFree(t[1..])
  }

  function Entered(t: Table, k: Kind): Table
  {
    var i := LowestFree(t);
    if i < |t| then t[i := Some(k)] else t + [Some(k)]
  }

  class Kernel {
    var tables: seq<Table>       // one descriptor table a process
    var pipes: map<nat, Ends>
    var nextId: nat

    ghost predicate Valid() reads this
    {
      Counted(tables, pipes) && forall id :: id in pipes ==> id < nextId
    }

    constructor ()
      ensures Valid() && tables == [] && pipes == map[]
    {
      tables, pipes, nextId := [], map[], 1;
    }

    /** A process with a fresh table: three console descriptors. */
    method NewProcess() returns (p: nat)
      requires Valid()
      modifies this`tables
      ensures Valid() && p == |old(tables)| && tables == old(tables) + [[Some(Console), Some(Console), Some(Console)]]
    {
      p := |tables|;
      var t: Table := [Some(Console), Some(Console), Some(Console)];
      PlainTable(tables, t, pipes);
      tables := tables + [t];
    }

    method AllocFd(p: nat, k: Kind) returns (fd: nat)
      requires p < |tables|
      modifies this`tables
      ensures fd == LowestFree(old(tables)[p]) && tables == old(tables)[p := Entered(old(tables)[p], k)]
      ensures CountsMoved(old(tables), tables, k, 1)
    {
      hide CountsMoved;
      var t := tables[p];
      for i := 0 to |t|
        invariant tables == old(tables) && forall j :: 0 <= j < i ==> t[j] != None
      {
        if t[i] == None {
          SlotFilled(tables, p, i, k);
          tables := tables[p := t[i := Some(k)]];
          return i;
        }
      }
      fd := |t|;
      SlotPushed(tables, p, k);
      tables := tables[p := t + [Some(k)]];
    }

    method AddReference(k: Kind)
      modifies this`pipes
      ensures pipes == Referenced(old(pipes), k)
    {
      if IsPipe(k) && k.id in pipes {
        pipes := pipes[k.id := Add(pipes[k.id], k, 1)];
      }
    }

    /** close_kind. */
    method CloseKind(k: Kind)
      requires IsPipe(k) && k.id in pipes ==>
               (k.PipeRead? ==> pipes[k.id].readers > 0) && (k.PipeWrite? ==> pipes[k.id].writers > 0)
      modifies this`pipes
      ensures pipes == Dropped(old(pipes), k)
    {
      if IsPipe(k) && k.id in pipes {
        pipes := pipes[k.id := Add(pipes[k.id], k, -1)];
        if pipes[k.id].readers == 0 && pipes[k.id].writers == 0 {
          pipes := pipes - {k.id};
        }
      }
    }

    /** The pipe system call: a new pipe, and a descriptor for each of its ends. */
    method CreatePipe(p: nat) returns (rfd: nat, wfd: nat)
      requires Valid() && p < |tables|
      modifies this
      ensures Valid() && nextId == old(nextId) + 1
      ensures tables == old(tables)[p := Entered(Entered(old(tables)[p], PipeRead(old(nextId))),
                                                 PipeWrite(old(nextId)))]
      ensures pipes == old(pipes)[old(nextId) := Ends(1, 1)]
    {
      hide InAll;
      var id := nextId;
      nextId := nextId + 1;
      pipes := pipes[id := Ends(1, 1)];
      rfd := AllocFd(p, PipeRead(id));
      wfd := AllocFd(p, PipeWrite(id));
    }

    /** close: false for a descriptor that is not open. */
    method Close(p: nat, fd: int) returns (ok: bool)
      requires Valid() && p < |tables|
      modifies this
      ensures Valid() && nextId == old(nextId)
      ensures ok == (0 <= fd < |old(tables)[p]| && old(tables)[p][fd] != None)
      ensures tables == if ok then old(tables)[p := old(tables)[p][fd := None]] else old(tables)
    {
      hide InAll;
      if fd < 0 || fd >= |tables[p]| || tables[p][fd] == None { return false; }
      var k := tables[p][fd].value;
      ghost var ts := tables;
      SlotCleared(tables, p, fd, k);
      tables := tables[p := tables[p][fd := None]];
      DroppedCounts(ts, tables, pipes, k);
      CloseKind(k);
      ok := true;
    }

    /** close_all, on exit: every descriptor of the process is closed. */
    method CloseAll(p: nat)
      requires Valid() && p < |tables|
      modifies this
      ensures Valid() && nextId == old(nextId) && |tables| == |old(tables)| && |tables[p]| == |old(tables)[p]|
      ensures forall i :: 0 <= i < |tables[p]| ==> tables[p][i] == None
      ensures forall q :: 0 <= q < |tables| && q != p ==> tables[q] == old(tables)[q]
    {
      for i := 0 to |tables[p]|
        invariant Valid() && nextId == old(nextId) && |tables| == |old(tables)| && |tables[p]| == |old(tables)[p]|
        invariant forall j :: 0 <= j < i ==> tables[p][j] == None
        invariant forall q :: 0 <= q < |tables| && q != p ==> tables[q] == old(tables)[q]
      {
        var _ := Close(p, i);
      }
    }

    /** dup; a file is reopened again, which may fail. */
    method Dup(p: nat, fd: int, reopened: bool) returns (r: int)
      requires Valid() && p < |tables|
      modifies this
      ensures Valid() && nextId == old(nextId)
      ensures r == -1 <==> !(0 <= fd < |old(tables)[p]| && old(tables)[p][fd] != None &&
                             (old(tables)[p][fd] == Some(FileDesc) ==> reopened))
      ensures r != -1 ==> r == LowestFree(old(tables)[p])
      ensures r != -1 ==> tables == old(tables)[p := Entered(old(tables)[p], old(tables)[p][fd].value)]
      ensures r == -1 ==> tables == old(tables) && pipes == old(pipes)
    {
      hide InAll;
      if fd < 0 || fd >= |tables[p]| || tables[p][fd] == None { return -1; }
      var k := tables[p][fd].value;
      if k == FileDesc && !reopened { return -1; }
      NamedIsRegistered(tables, pipes, p, fd);
      ghost var ts, ps := tables, pipes;
      AddReference(k);
      r := AllocFd(p, k);
      ReferencedCounts(ts, tables, ps, k);
    }

    /** clone_fd_table, on fork: a copy of the table in which files are reopened again. */
    method Fork(p: nat, reopened: seq<bool>) returns (child: nat)
      requires Valid() && p < |tables| && |reopened| == |tables[p]|
      modifies this
      ensures Valid() && nextId == old(nextId) && child == |old(tables)| && |tables| == child + 1 &&
              tables[..child] == old(tables)
      ensures |tables[child]| == |old(tables)[p]|
      ensures forall i :: 0 <= i < |tables[child]| ==>
                tables[child][i] == if old(tables)[p][i] == Some(FileDesc) && !reopened[i] then None
                    else old(tables)[p][i]
    {
      hide InAll;
      child := |tables|;
      ghost var ts := tables;
      var n := |tables[p]|;
      PlainTable(tables, seq(n, _ => None), pipes);
      tables := tables + [seq(n, _ => None)];
      for i := 0 to n
        invariant Valid() && nextId == old(nextId) && |tables| == child + 1 && tables[..child] == ts &&
                  |tables[child]| == n
        invariant forall j :: 0 <= j < i ==>
                  tables[child][j] == if ts[p][j] == Some(FileDesc) && !reopened[j] then None else ts[p][j]
        invariant forall j :: i <= j < n ==> tables[child][j] == None
      {
        assert tables[p] == tables[..child][p];
        if tables[p][i] != None && (tables[p][i] == Some(FileDesc) ==> reopened[i]) {
          var k := tables[p][i].value;
          NamedIsRegistered(tables, pipes, p, i);
          SlotFilled(tables, child, i, k);
          ghost var ts1, ps1 := tables, pipes;
          AddReference(k);
          tables := tables[child := tables[child][i := Some(k)]];
          ReferencedCounts(ts1, tables, ps1, k);
        }
      }
    }
  }

  /** Every pipe a descriptor names is registered. */
  lemma NamedIsRegistered(ts: seq<Table>, pipes: map<nat, Ends>, p: nat, fd: nat)
    requires Counted(ts, pipes) && p < |ts| && fd < |ts[p]|
    ensures ts[p][fd].Some? && IsPipe(ts[p][fd].value) ==> ts[p][fd].value.id in pipes
  {
    if ts[p][fd].Some? && IsPipe(ts[p][fd].value) {
      var k := ts[p][fd].value;
      InTableMember(ts[p], k);
      InAllMember(ts, p, k);
    }
  }
}
