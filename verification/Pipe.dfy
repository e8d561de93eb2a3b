/**
 Pipes: a ring buffer shared by readers and writers that interleave where they take the lock
 and where they wait.  What runs between taking the lock and giving it up, by returning or by
 waiting, is one section.
 */
module Pipe {
  import opened NumberTheory
  import FsBytes

  const PIPE_SIZE := 512
  const USIZE := FsBytes.U32

  type Byte = FsBytes.Byte

  type Counter = n: nat | n < USIZE witness 0

  datatype Ring = Ring(buf: seq<Byte>, nread: Counter, nwrite: Counter, readRefs: nat, writeRefs: nat,
                       readOpen: bool, writeOpen: bool)

  /** The ring with everything ever put in and taken out of it. */
  datatype State = State(ring: Ring, accepted: seq<Byte>, received: seq<Byte>)

  /** Wrapping subtraction of the 32-bit counters. */
  function Buffered(r: Ring): nat { if r.nwrite >= r.nread then r.nwrite - r.nread else r.nwrite + USIZE - r.nread }

  function Cell(counter: nat, i: nat): (c: nat)
    ensures c < PIPE_SIZE
  {
    (counter + i) % USIZE % PIPE_SIZE
  }

  predicate Full(r: Ring) { r.nwrite == (r.nread + PIPE_SIZE) % USIZE }

  predicate Empty(r: Ring) { r.nread == r.nwrite }

  function Min(a: nat, b: nat): nat { if a < b then a else b }

  /** The counters count bytes modulo 2^32, and the bytes accepted but not received are in the ring. */
  ghost predicate Inv(s: State)
  {
    && |s.ring.buf| == PIPE_SIZE
    && |s.received| <= |s.accepted| <= |s.received| + PIPE_SIZE
    && s.received == s.accepted[..|s.received|]
    && s.ring.nread == |s.received| % USIZE && s.ring.nwrite == |s.accepted| % USIZE
    && (forall i :: |s.received| <= i < |s.accepted| ==> s.ring.buf[i % PIPE_SIZE] == s.accepted[i])
    && (s.ring.readOpen <==> s.ring.readRefs > 0) && (s.ring.writeOpen <==> s.ring.writeRefs > 0)
  }

  // ---- counters ---------------------------------------------------------------------------------------

  /** Two counts less than 2^32 apart are told apart, and subtracted, modulo 2^32. */
  lemma Distance(a: nat, b: nat)
    requires b <= a <= b + PIPE_SIZE
    ensures (if a % USIZE >= b % USIZE then a % USIZE - b % USIZE else a % USIZE + USIZE - b % USIZE) == a - b
  {
    var q, r := b / USIZE, b % USIZE;
    var x := r + (a - b);
    if x < USIZE { RemainderUnique(a, USIZE, q, x); } else { RemainderUnique(a, USIZE, q + 1, x - USIZE); }
  }

  lemma BufferedIs(s: State)
    requires Inv(s)
    ensures Buffered(s.ring) == |s.accepted| - |s.received|
    ensures Empty(s.ring) <==> |s.accepted| == |s.received|
    ensures Full(s.ring) <==> |s.accepted| == |s.received| + PIPE_SIZE
    ensures |s.received| <= |s.accepted| <= |s.received| + PIPE_SIZE && (s.ring.readOpen <==> s.ring.readRefs > 0)
  {
    Distance(|s.accepted|, |s.received|);
    var a, b := |s.accepted|, |s.received|;
    Distance(b + PIPE_SIZE, a);
    ModAdd(b, PIPE_SIZE);
  }

  lemma ModAdd(a: nat, n: nat)
    ensures (a % USIZE + n) % USIZE == (a + n) % USIZE
  {}

  lemma CellIs(total: nat, i: nat)
    ensures Cell(total % USIZE, i) == (total + i) % PIPE_SIZE
  {
    ModAdd(total, i);
    var x := total + i;
    var q, r := x / USIZE, x % USIZE;
    assert x == USIZE * q + r;
    var q2, r2 := r / PIPE_SIZE, r % PIPE_SIZE;
    assert x == PIPE_SIZE * (0x80_0000 * q + q2) + r2;
    RemainderUnique(x, PIPE_SIZE, 0x80_0000 * q + q2, r2);
  }

  // ---- sections ---------------------------------------------------------------------------------------

  datatype Outcome = Done | Closed | Waiting

  /** data put into consecutive cells from the counter on. */
  function Put(buf: seq<Byte>, counter: nat, data: seq<Byte>): (r: seq<Byte>)
    requires |buf| == PIPE_SIZE
    ensures |r| == PIPE_SIZE
    decreases |data|
  {
    if data == [] then buf else
      var n := |data| - 1;
      Put(buf, counter, data[..n])[Cell(counter, n) := data[n]]
  }

  /** What is in the ring from the counter on, n bytes of it. */
  function Get(buf: seq<Byte>, counter: nat, n: nat): (r: seq<Byte>)
    requires |buf| == PIPE_SIZE
    ensures |r| == n
  {
    seq(n, i requires 0 <= i < n => buf[Cell(counter, i)])
  }

  function Advance(c: Counter, n: nat): Counter { (c + n) % USIZE }

  function Taken(r: Ring, data: seq<Byte>): Ring
    requires |r.buf| == PIPE_SIZE
  {
    r.(buf := Put(r.buf, r.nwrite, data), nwrite := Advance(r.nwrite, |data|))
  }

  datatype WriteResult = WriteResult(ring: Ring, written: nat, outcome: Outcome)

  /** A writer's section: copy what fits, and stop when done, when the readers are gone, or to wait. */
  function WriteSection(r: Ring, data: seq<Byte>, written: nat): (w: WriteResult)
    requires |r.buf| == PIPE_SIZE && written <= |data|
    ensures written <= w.written <= |data|
    decreases |data| - written
  {
    if written == |data| then WriteResult(r, written, Done)
    else if Full(r) then WriteResult(r, written, if r.readOpen then Waiting else Closed)
    else
      var space := PIPE_SIZE - Buffered(r);
      if space <= 0 then WriteResult(r, written, Waiting)
      else
        var n := Min(|data| - written, space);
        WriteSection(Taken(r, data[written..written + n]), data, written + n)
  }

  datatype ReadResult = ReadResult(ring: Ring, bytes: seq<Byte>, outcome: Outcome)

  function ReadSection(r: Ring, cap: nat): ReadResult
    requires |r.buf| == PIPE_SIZE
  {
    if Empty(r) then ReadResult(r, [], if r.writeOpen then Waiting else Done)
    else
      var n := Min(cap, Buffered(r));
      ReadResult(r.(nread := Advance(r.nread, n)), Get(r.buf, r.nread, n), Done)
  }

  /** Positions less than a ring apart are in different cells. */
  lemma DifferentCells(a: nat, b: nat)
    requires a < b < a + PIPE_SIZE
    ensures a % PIPE_SIZE != b % PIPE_SIZE
  {}

  /** One byte goes into a cell no buffered byte is in. */
  lemma ByteKeeps(s: State, b: Byte)
    requires Inv(s) && |s.accepted| < |s.received| + PIPE_SIZE
    ensures Inv(State(s.ring.(buf := s.ring.buf[Cell(s.ring.nwrite, 0) := b], nwrite := Advance(s.ring.nwrite, 1)),
                      s.accepted + [b], s.received))
  {
    var a := |s.accepted|;
    CellIs(a, 0);
    ModAdd(a, 1);
    var buf' := s.ring.buf[Cell(s.ring.nwrite, 0) := b];
    hide Cell;
    forall i | |s.received| <= i < a + 1 ensures buf'[i % PIPE_SIZE] == (s.accepted + [b])[i] {
      if i < a { DifferentCells(i, a); }
    }
  }

  /** What a writer puts in goes to the end of what was accepted. */
  lemma {:induction false} TakenKeeps(s: State, data: seq<Byte>)
    requires Inv(s) && |s.ring.buf| == PIPE_SIZE && |s.accepted| + |data| <= |s.received| + PIPE_SIZE
    ensures Inv(State(Taken(s.ring, data), s.accepted + data, s.received))
    decreases |data|
  {
    hide Inv, Cell, Advance;
    if data == [] {
      NoAdvance(s);
      assert s.accepted + data == s.accepted;
      assert Taken(s.ring, data) == s.ring;
    } else {
      var n := |data| - 1;
      TakenKeeps(s, data[..n]);
      var s1 := State(Taken(s.ring, data[..n]), s.accepted + data[..n], s.received);
      ByteKeeps(s1, data[n]);
      AdvanceTwice(s.ring.nwrite, n);
      assert s1.accepted + [data[n]] == s.accepted + data;
    }
  }

  lemma NoAdvance(s: State)
    ensures Advance(s.ring.nwrite, 0) == s.ring.nwrite
  {}

  lemma AdvanceTwice(c: Counter, n: nat)
    ensures Advance(Advance(c, n), 1) == Advance(c, n + 1) && Cell(Advance(c, n), 0) == Cell(c, n)
  {
    ModAdd(c + n, 1);
    ModAdd(c + n, 0);
  }

  /** A writer's section accepts exactly the bytes it reports, in order and as many as fit, and with some
      left waits if a reader is left and gives up if not. */
  lemma {:induction false} WriteKeeps(s: State, data: seq<Byte>, written: nat)
    requires Inv(s) && |s.ring.buf| == PIPE_SIZE && written <= |data|
    ensures var w := WriteSection(s.ring, data, written);
            var s' := State(w.ring, s.accepted + data[written..w.written], s.received);
            && Inv(s') && w.written - written == Min(|data| - written, PIPE_SIZE - (|s.accepted| - |s.received|))
            && (w.outcome == Done <==> w.written == |data|)
            && (w.outcome == Waiting <==> w.written < |data| && s.ring.readRefs > 0)
    decreases |data| - written
  {
    hide Inv, Full, Buffered;
    BufferedIs(s);
    if written < |data| && !Full(s.ring) {
      var n := Min(|data| - written, PIPE_SIZE - Buffered(s.ring));
      var chunk := data[written..written + n];
      TakenKeeps(s, chunk);
      WriteKeeps(State(Taken(s.ring, chunk), s.accepted + chunk, s.received), data, written + n);
      var w := WriteSection(s.ring, data, written);
      assert s.accepted + chunk + data[written + n..w.written] == s.accepted + data[written..w.written];
    } else {
      var w := WriteSection(s.ring, data, written);
      assert s.accepted + data[written..w.written] == s.accepted;
    }
  }

  /** A reader's section takes the next bytes in order, as many as there are and as it has room for, and
      waits exactly if there are none and a writer is left; a read with room that returns nothing does so
      only when the last write reference is gone and everything accepted has been received. */
  lemma ReadKeeps(s: State, cap: nat)
    requires Inv(s)
    ensures var r := ReadSection(s.ring, cap);
            var s' := State(r.ring, s.accepted, s.received + r.bytes);
            && Inv(s') && |r.bytes| == Min(cap, |s.accepted| - |s.received|)
            && (r.outcome == Waiting <==> s.received == s.accepted && s.ring.writeRefs > 0)
            && (r.outcome == Waiting ==> r.ring == s.ring)
            && (r.outcome != Waiting && r.bytes == [] && cap > 0 ==> s.ring.writeRefs == 0 && s.received == s.accepted)
  {
    BufferedIs(s);
    var r := ReadSection(s.ring, cap);
    var d := |s.received|;
    ModAdd(d, |r.bytes|);
    forall i | 0 <= i < |r.bytes| ensures r.bytes[i] == s.accepted[d + i] {
      CellIs(d, i);
    }
    assert s.received + r.bytes == s.accepted[..d + |r.bytes|];
  }

  // ---- every interleaving -------------------------------------------------------------------------------

  function RefRead(r: Ring): Ring { r.(readRefs := r.readRefs + 1) }

  function RefWrite(r: Ring): Ring { r.(writeRefs := r.writeRefs + 1) }

  function CloseRead(r: Ring): Ring
    requires r.readRefs > 0
  {
    r.(readRefs := r.readRefs - 1, readOpen := r.readOpen && r.readRefs > 1)
  }

  function CloseWrite(r: Ring): Ring
    requires r.writeRefs > 0
  {
    r.(writeRefs := r.writeRefs - 1, writeOpen := r.writeOpen && r.writeRefs > 1)
  }

  /** What a thread is in the middle of. */
  datatype Task = Idle | Writing(data: seq<Byte>, written: nat) | Reading(cap: nat)

  datatype World = World(s: State, tasks: seq<Task>)

  datatype Event =
    | BeginWrite(t: nat, data: seq<Byte>) | BeginRead(t: nat, cap: nat) | Section(t: nat)
    | DupRead | DupWrite | DropRead | DropWrite

  /** Ends are duplicated and dropped only by someone holding one. */
  predicate Enabled(w: World, e: Event)
  {
    && |w.s.ring.buf| == PIPE_SIZE
    && match e
       case BeginWrite(t, _) => t < |w.tasks| && w.tasks[t] == Idle
       case BeginRead(t, _) => t < |w.tasks| && w.tasks[t] == Idle
       case Section(t) => t < |w.tasks| && w.tasks[t] != Idle &&
           (w.tasks[t].Writing? ==> w.tasks[t].written <= |w.tasks[t].data|)
       case DupRead => w.s.ring.readRefs > 0
       case DropRead => w.s.ring.readRefs > 0
       case DupWrite => w.s.ring.writeRefs > 0
       case DropWrite => w.s.ring.writeRefs > 0
  }

  function Step(w: World, e: Event): World
    requires Enabled(w, e)
  {
    match e
    case BeginWrite(t, data) => w.(tasks := w.tasks[t := Writing(data, 0)])
    case BeginRead(t, cap) => w.(tasks := w.tasks[t := Reading(cap)])
    case Section(t) =>
      if w.tasks[t].Writing? then
        var data, written := w.tasks[t].data, w.tasks[t].written;
        var r := WriteSection(w.s.ring, data, written);
        World(State(r.ring, w.s.accepted + data[written..r.written], w.s.received),
              w.tasks[t := if r.outcome == Waiting then Writing(data, r.written) else Idle])
      else
        var r := ReadSection(w.s.ring, w.tasks[t].cap);
        World(State(r.ring, w.s.accepted, w.s.received + r.bytes), if r.outcome == Waiting then w.tasks
              else w.tasks[t := Idle])
    case DupRead => w.(s := w.s.(ring := RefRead(w.s.ring)))
    case DupWrite => w.(s := w.s.(ring := RefWrite(w.s.ring)))
    case DropRead => w.(s := w.s.(ring := CloseRead(w.s.ring)))
    case DropWrite => w.(s := w.s.(ring := CloseWrite(w.s.ring)))
  }

  function NewRing(): Ring { Ring(seq(PIPE_SIZE, _ => 0), 0, 0, 1, 1, true, true) }

  ghost predicate Run(ws: seq<World>, es: seq<Event>)
  {
    && |ws| == |es| + 1 && ws[0].s == State(NewRing(), [], []) &&
        (forall t :: 0 <= t < |ws[0].tasks| ==> ws[0].tasks[t] == Idle)
    && forall i :: 0 <= i < |es| ==> Enabled(ws[i], es[i]) && ws[i + 1] == Step(ws[i], es[i])
  }

  lemma StepKeeps(w: World, e: Event)
    requires Inv(w.s) && Enabled(w, e)
    ensures Inv(Step(w, e).s)
  {
    match e
    case Section(t) =>
      hide Inv, WriteSection, ReadSection;
      if w.tasks[t].Writing? {
        WriteKeeps(w.s, w.tasks[t].data, w.tasks[t].written);
      } else {
        ReadKeeps(w.s, w.tasks[t].cap);
      }
    case _ =>
  }

  /** In every interleaving: what was received, followed by what is buffered, is what was accepted,
      in order; and the ring never holds more than its size. */
  lemma {:induction false} RunKeeps(ws: seq<World>, es: seq<Event>, i: nat)
    requires Run(ws, es) && i < |ws|
    ensures Inv(ws[i].s)
    ensures var s := ws[i].s;
            s.received + Get(s.ring.buf, s.ring.nread, Buffered(s.ring)) == s.accepted && Buffered(s.ring) <= PIPE_SIZE
  {
    if i > 0 {
      RunKeeps(ws, es, i - 1);
      StepKeeps(ws[i - 1], es[i - 1]);
      assert ws[i - 1 + 1] == Step(ws[i - 1], es[i - 1]);
    }
    BufferedBytes(ws[i].s);
  }

  lemma BufferedBytes(s: State)
    requires Inv(s)
    ensures s.received + Get(s.ring.buf, s.ring.nread, Buffered(s.ring)) == s.accepted && Buffered(s.ring) <= PIPE_SIZE
  {
    BufferedIs(s);
    var d := |s.received|;
    var g := Get(s.ring.buf, s.ring.nread, Buffered(s.ring));
    forall i | 0 <= i < |g| ensures g[i] == s.accepted[d + i] { CellIs(d, i); }
  }

  /** References an event adds to the two ends. */
  function RefsBy(e: Event): (int, int)
  {
    match e
    case DupRead => (1, 0)
    case DropRead => (-1, 0)
    case DupWrite => (0, 1)
    case DropWrite => (0, -1)
    case _ => (0, 0)
  }

  function RefsAfter(es: seq<Event>, i: nat): (int, int)
    requires i <= |es|
  {
    if i == 0 then (1, 1) else
      var a, b := RefsAfter(es, i - 1), RefsBy(es[i - 1]);
      (a.0 + b.0, a.1 + b.1)
  }

  lemma {:induction false} WriteKeepsRefs(r: Ring, data: seq<Byte>, written: nat)
    requires |r.buf| == PIPE_SIZE && written <= |data|
    ensures var w := WriteSection(r, data, written).ring;
            w.readRefs == r.readRefs && w.writeRefs == r.writeRefs
    decreases |data| - written
  {
    hide Full, Put, Advance;
    var space := PIPE_SIZE - Buffered(r);
    if written < |data| && !Full(r) && space > 0 {
      var n := Min(|data| - written, space);
      WriteKeepsRefs(Taken(r, data[written..written + n]), data, written + n);
    }
  }

  /** In every interleaving each end has one reference, plus those duplicated, minus those dropped. */
  lemma {:induction false} RefsBalance(ws: seq<World>, es: seq<Event>, i: nat)
    requires Run(ws, es) && i < |ws|
    ensures ws[i].s.ring.readRefs == RefsAfter(es, i).0 && ws[i].s.ring.writeRefs == RefsAfter(es, i).1
  {
    hide WriteSection, ReadSection;
    if i > 0 {
      RefsBalance(ws, es, i - 1);
      assert ws[i - 1 + 1] == Step(ws[i - 1], es[i - 1]);
      StepRefs(ws[i - 1], es[i - 1]);
      hide Step, Run, RefsBy;
    }
  }

  lemma StepRefs(w: World, e: Event)
    requires Enabled(w, e)
    ensures var r := Step(w, e).s.ring;
            r.readRefs == w.s.ring.readRefs + RefsBy(e).0 && r.writeRefs == w.s.ring.writeRefs + RefsBy(e).1
  {
    hide WriteSection;
    if e.Section? && w.tasks[e.t].Writing? { WriteKeepsRefs(w.s.ring, w.tasks[e.t].data, w.tasks[e.t].written); }
  }

  /** In every interleaving, a read with room that ends with nothing ends at the end of the stream. */
  lemma EmptyReadIsEof(ws: seq<World>, es: seq<Event>, i: nat, t: nat)
    requires Run(ws, es) && i < |es| && es[i] == Section(t) && ws[i].tasks[t].Reading? && ws[i].tasks[t].cap > 0
    requires ws[i + 1].tasks[t] == Idle && ws[i + 1].s.received == ws[i].s.received
    ensures ws[i].s.ring.writeRefs == 0 && ws[i].s.received == ws[i].s.accepted
  {
    RunKeeps(ws, es, i);
    ReadKeeps(ws[i].s, ws[i].tasks[t].cap);
    assert ws[i + 1] == Step(ws[i], es[i]);
  }

  /** In every interleaving, a write gives up only when the last read reference is gone. */
  lemma WriteGivesUp(ws: seq<World>, es: seq<Event>, i: nat, t: nat)
    requires Run(ws, es) && i < |es| && es[i] == Section(t) && ws[i].tasks[t].Writing? && ws[i + 1].tasks[t] == Idle
    ensures ws[i].tasks[t].written <= |ws[i].tasks[t].data|
    ensures ws[i + 1].s.accepted == ws[i].s.accepted + ws[i].tasks[t].data[ws[i].tasks[t].written..] ||
            ws[i].s.ring.readRefs == 0
  {
    RunKeeps(ws, es, i);
    WriteKeeps(ws[i].s, ws[i].tasks[t].data, ws[i].tasks[t].written);
    assert ws[i + 1] == Step(ws[i], es[i]);
    var d, k := ws[i].tasks[t].data, ws[i].tasks[t].written;
    assert d[k..|d|] == d[k..];
  }

  // ---- in place ------------------------------------------------------------------------------------------

  class PipeBuffer {
    var buf: array<Byte>
    var nread: Counter
    var nwrite: Counter
    var readOpen: bool
    var writeOpen: bool
    var readRefs: nat
    var writeRefs: nat

    ghost predicate Valid() reads this, buf { buf.Length == PIPE_SIZE }

    ghost function R(): Ring reads this, buf { Ring(buf[..], nread, nwrite, readRefs, writeRefs, readOpen, writeOpen) }

    constructor ()
      ensures Valid() && R() == NewRing() && fresh(buf)
    {
      buf := new Byte[PIPE_SIZE](_ => 0);
      nread, nwrite, readOpen, writeOpen, readRefs, writeRefs := 0, 0, true, true, 1, 1;
    }

    method CopyIn(data: seq<Byte>)
      requires Valid()
      modifies this`nwrite, buf
      ensures Valid() && R() == Taken(old(R()), data)
    {
      ghost var buf0 := buf[..];
      for i := 0 to |data|
        invariant Valid() && buf[..] == Put(buf0, nwrite, data[..i]) && nwrite == old(nwrite)
      {
        assert data[..i + 1][..i] == data[..i];
        var cell := Cell(nwrite, i);
        buf[cell] := data[i];
      }
      assert data[..|data|] == data;
      nwrite := Advance(nwrite, |data|);
    }

    /** write, from taking the lock to giving it up. */
    method Write(data: seq<Byte>, from: nat) returns (written: nat, outcome: Outcome)
      requires Valid() && from <= |data| && Buffered(R()) <= PIPE_SIZE
      modifies this`nwrite, buf
      ensures Valid() && WriteResult(R(), written, outcome) == WriteSection(old(R()), data, from)
    {
      hide Put, Advance, Taken;
      written := from;
      while written < |data|
        invariant from <= written <= |data| && Valid() && Buffered(R()) <= PIPE_SIZE
        invariant WriteSection(R(), data, written) == WriteSection(old(R()), data, from)
      {
        FullIs(R());
        if nwrite == (nread + PIPE_SIZE) % USIZE {
          outcome := if readOpen then Waiting else Closed;
          return;
        }
        var space := PIPE_SIZE - (if nwrite >= nread then nwrite - nread else nwrite + USIZE - nread);
        var n := Min(|data| - written, space);
        TakenBuffered(R(), data[written..written + n]);
        CopyIn(data[written..written + n]);
        written := written + n;
      }
      outcome := Done;
    }

    /** read, from taking the lock to giving it up. */
    method Read(out: array<Byte>) returns (n: nat, outcome: Outcome)
      requires Valid() && out != buf
      modifies this`nread, out
      ensures Valid() && n <= out.Length && out[n..] == old(out[n..])
      ensures ReadResult(R(), out[..n], outcome) == ReadSection(old(R()), out.Length)
    {
      n := 0;
      if nread == nwrite {
        outcome := if writeOpen then Waiting else Done;
        return;
      }
      var available := if nwrite >= nread then nwrite - nread else nwrite + USIZE - nread;
      n := Min(out.Length, available);
      for i := 0 to n
        invariant Valid() && out[..i] == Get(buf[..], nread, i) && buf[..] == old(buf[..]) && nread == old(nread)
        invariant forall k :: n <= k < out.Length ==> out[k] == old(out[k])
      {
        out[i] := buf[Cell(nread, i)];
      }
      nread := Advance(nread, n);
      outcome := Done;
    }

    method AddReader()
      modifies this`readRefs
      ensures R() == RefRead(old(R()))
    {
      readRefs := readRefs + 1;
    }

    method AddWriter()
      modifies this`writeRefs
      ensures R() == RefWrite(old(R()))
    {
      writeRefs := writeRefs + 1;
    }

    /** close_read: reports whether both ends are now fully closed. */
    method DropReader() returns (both: bool)
      requires readRefs > 0
      modifies this`readRefs, this`readOpen
      ensures R() == CloseRead(old(R())) && both == (!readOpen && !writeOpen)
    {
      readRefs := readRefs - 1;
      if readRefs == 0 { readOpen := false; }
      both := !readOpen && !writeOpen;
    }

    method DropWriter() returns (both: bool)
      requires writeRefs > 0
      modifies this`writeRefs, this`writeOpen
      ensures R() == CloseWrite(old(R())) && both == (!readOpen && !writeOpen)
    {
      writeRefs := writeRefs - 1;
      if writeRefs == 0 { writeOpen := false; }
      both := !readOpen && !writeOpen;
    }
  }

  lemma FullIs(r: Ring)
    ensures Full(r) <==> Buffered(r) == PIPE_SIZE
  {}

  lemma TakenBuffered(r: Ring, data: seq<Byte>)
    requires |r.buf| == PIPE_SIZE && Buffered(r) + |data| <= PIPE_SIZE
    ensures Buffered(Taken(r, data)) == Buffered(r) + |data|
  {
    hide Put;
  }
}
