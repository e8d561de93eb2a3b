/**
 Who waits on a pipe.  Readers wait on one condition variable and writers on another, and each
 signal wakes one of those waiting, whichever has the highest priority: here, any of them.
 */
module PipeWaiting {
  import opened Pipe

  /** The pipe with the threads blocked on not_empty and on not_full. */
  datatype Queued = Queued(w: World, readers: seq<nat>, writers: seq<nat>)

  /** An event, with the waiter its signal picks. */
  datatype Act = Act(e: Event, pick: nat)

  /** signal: one waiter leaves, if there is one. */
  function Signalled(q: seq<nat>, pick: nat): (r: seq<nat>)
    requires q != [] ==> pick < |q|
    ensures |r| == if q == [] then 0 else |q| - 1
  {
    if q == [] then [] else q[..pick] + q[pick + 1..]
  }

  /** A thread in a section is not blocked, a call begins through an open descriptor, and a signal
      picks a waiter that is there. */
  predicate Possible(x: Queued, a: Act)
  {
    && Enabled(x.w, a.e)
    && (a.e.BeginRead? ==> x.w.s.ring.readRefs > 0) && (a.e.BeginWrite? ==> x.w.s.ring.writeRefs > 0)
    && (a.e.Section? ==> a.e.t !in x.readers && a.e.t !in x.writers)
    && (x.readers != [] && WakesReader(x.w, a.e) ==> a.pick < |x.readers|)
    && (x.writers != [] && WakesWriter(x.w, a.e) ==> a.pick < |x.writers|)
  }

  /** not_empty is signalled: by a writer that is done or goes to wait, and by the last close of the
      write end. */
  predicate WakesReader(w: World, e: Event)
    requires Enabled(w, e)
  {
    match e
    case Section(t) => w.tasks[t].Writing? && WriteSection(w.s.ring, w.tasks[t].data,
                                                           w.tasks[t].written).outcome != Closed
    case DropWrite => w.s.ring.writeRefs == 1
    case _ => false
  }

  /** not_full is signalled: by a reader that found something, and by the last close of the read end. */
  predicate WakesWriter(w: World, e: Event)
    requires Enabled(w, e)
  {
    match e
    case Section(t) => w.tasks[t].Reading? && !Empty(w.s.ring)
    case DropRead => w.s.ring.readRefs == 1
    case _ => false
  }

  /** The thread in the section goes to wait. */
  predicate Waits(w: World, e: Event)
    requires Enabled(w, e)
  {
    e.Section? &&
    if w.tasks[e.t].Writing? then WriteSection(w.s.ring, w.tasks[e.t].data, w.tasks[e.t].written).outcome == Waiting
    else ReadSection(w.s.ring, w.tasks[e.t].cap).outcome == Waiting
  }

  function Next(x: Queued, a: Act): Queued
    requires Possible(x, a)
  {
    var readers := if WakesReader(x.w, a.e) then Signalled(x.readers, a.pick) else x.readers;
    var writers := if WakesWriter(x.w, a.e) then Signalled(x.writers, a.pick) else x.writers;
    Queued(Step(x.w, a.e),
           if Waits(x.w, a.e) && x.w.tasks[a.e.t].Reading? then readers + [a.e.t] else readers,
           if Waits(x.w, a.e) && x.w.tasks[a.e.t].Writing? then writers + [a.e.t] else writers)
  }

  ghost predicate Going(xs: seq<Queued>, acts: seq<Act>)
  {
    |xs| == |acts| + 1 && forall i :: 0 <= i < |acts| ==> Possible(xs[i], acts[i]) && xs[i + 1] == Next(xs[i], acts[i])
  }

  /** No write can come any more. */
  ghost predicate WritersGone(w: World)
  {
    Inv(w.s) && w.s.ring.writeRefs == 0 && forall t :: 0 <= t < |w.tasks| ==> !w.tasks[t].Writing?
  }

  ghost predicate ReadersGone(w: World)
  {
    Inv(w.s) && w.s.ring.readRefs == 0 && forall t :: 0 <= t < |w.tasks| ==> !w.tasks[t].Reading?
  }

  lemma WritersStayGone(x: Queued, a: Act)
    requires WritersGone(x.w) && Possible(x, a)
    ensures WritersGone(Next(x, a).w) && Next(x, a).readers == x.readers
  {
    StepKeeps(x.w, a.e);
    hide Inv, WriteSection;
    assert !x.w.s.ring.writeOpen by { OpenIff(x.w.s); }
  }

  lemma ReadersStayGone(x: Queued, a: Act)
    requires ReadersGone(x.w) && Possible(x, a)
    ensures ReadersGone(Next(x, a).w)
    ensures Next(x, a).writers == x.writers
  {
    StepKeeps(x.w, a.e);
    OpenIff(x.w.s);
    if a.e.Section? && x.w.tasks[a.e.t].Writing? {
      NeverWaits(x.w.s, x.w.tasks[a.e.t].data, x.w.tasks[a.e.t].written);
    }
    hide Inv, ReadSection, WriteSection;
  }

  lemma OpenIff(s: State)
    requires Inv(s)
    ensures (s.ring.readOpen <==> s.ring.readRefs > 0) && (s.ring.writeOpen <==> s.ring.writeRefs > 0)
  {}

  /** With the read end closed a writer is done or gives up, but does not wait. */
  lemma {:induction false} NeverWaits(s: State, data: seq<Byte>, written: nat)
    requires Inv(s) && |s.ring.buf| == PIPE_SIZE && !s.ring.readOpen && written <= |data|
    ensures var w := WriteSection(s.ring, data, written);
            w.outcome != Waiting && w.ring.readRefs == s.ring.readRefs && w.ring.writeRefs == s.ring.writeRefs
    decreases |data| - written
  {
    hide Inv, Full, Buffered;
    BufferedIs(s);
    if written < |data| && !Full(s.ring) {
      var n := Min(|data| - written, PIPE_SIZE - Buffered(s.ring));
      var chunk := data[written..written + n];
      TakenKeeps(s, chunk);
      NeverWaits(State(Taken(s.ring, chunk), s.accepted + chunk, s.received), data, written + n);
    }
  }

  lemma {:induction false} WritersGoneOn(xs: seq<Queued>, acts: seq<Act>, i: nat)
    requires Going(xs, acts) && i < |xs| && WritersGone(xs[0].w)
    ensures WritersGone(xs[i].w) && xs[i].readers == xs[0].readers
  {
    if i > 0 {
      WritersGoneOn(xs, acts, i - 1);
      assert xs[i - 1 + 1] == Next(xs[i - 1], acts[i - 1]);
      WritersStayGone(xs[i - 1], acts[i - 1]);
    }
  }

  lemma {:induction false} ReadersGoneOn(xs: seq<Queued>, acts: seq<Act>, i: nat)
    requires Going(xs, acts) && i < |xs| && ReadersGone(xs[0].w)
    ensures ReadersGone(xs[i].w) && xs[i].writers == xs[0].writers
  {
    if i > 0 {
      ReadersGoneOn(xs, acts, i - 1);
      assert xs[i - 1 + 1] == Next(xs[i - 1], acts[i - 1]);
      ReadersStayGone(xs[i - 1], acts[i - 1]);
    }
  }

  /** The last write end is closed, with no write under way: one blocked reader is woken, and however
      things go on no other ever is, so all of them learn of the end exactly when at most one waits. */
  lemma EndReachesReaders(xs: seq<Queued>, acts: seq<Act>, i: nat)
    requires Going(xs, acts) && 0 < i < |xs| && acts[0].e == DropWrite
    requires Inv(xs[0].w.s) && xs[0].w.s.ring.writeRefs == 1 && forall t :: 0 <= t < |xs[0].w.tasks| ==>
             !xs[0].w.tasks[t].Writing?
    ensures xs[i].readers == [] <==> |xs[0].readers| <= 1
    ensures xs[i].readers == xs[1].readers
  {
    assert xs[0 + 1] == Next(xs[0], acts[0]);
    StepKeeps(xs[0].w, acts[0].e);
    assert Going(xs[1..], acts[1..]);
    WritersGoneOn(xs[1..], acts[1..], i - 1);
  }

  /** The same for writers blocked on a full pipe when the last read end is closed. */
  lemma EndReachesWriters(xs: seq<Queued>, acts: seq<Act>, i: nat)
    requires Going(xs, acts) && 0 < i < |xs| && acts[0].e == DropRead
    requires Inv(xs[0].w.s) && xs[0].w.s.ring.readRefs == 1 && forall t :: 0 <= t < |xs[0].w.tasks| ==>
             !xs[0].w.tasks[t].Reading?
    ensures xs[i].writers == [] <==> |xs[0].writers| <= 1
    ensures xs[i].writers == xs[1].writers
  {
    assert xs[0 + 1] == Next(xs[0], acts[0]);
    StepKeeps(xs[0].w, acts[0].e);
    assert Going(xs[1..], acts[1..]);
    ReadersGoneOn(xs[1..], acts[1..], i - 1);
  }

  lemma NewIsEmpty()
    ensures |NewRing().buf| == PIPE_SIZE && Empty(NewRing()) && NewRing().writeRefs == 1 && NewRing().writeOpen
    ensures NewRing().readRefs == 1
  {}

  /** A reader that finds the pipe empty and open joins the queue. */
  lemma FindsEmpty(s: State, tasks: seq<Task>, q: seq<nat>, t: nat)
    requires |s.ring.buf| == PIPE_SIZE && Empty(s.ring) && s.ring.writeOpen && t < |tasks| && tasks[t].Reading? &&
             t !in q
    ensures var x := Queued(World(s, tasks), q, []);
            Possible(x, Act(Section(t), 0)) && Next(x, Act(Section(t), 0)) == Queued(World(s, tasks), q + [t], [])
  {
    hide WriteSection, Get, Advance, Buffered;
    assert s.received + [] == s.received;
  }

  /** A new pipe, two readers that find it empty, and the close of its only write end: one of the two
      is left waiting, and by the theorem above for good. */
  lemma OneReaderLeft(cap: nat) returns (xs: seq<Queued>, acts: seq<Act>)
    ensures Going(xs, acts) && |acts| == 5 && acts[4].e == DropWrite && xs[4].readers == [0, 1] && xs[5].readers == [1]
    ensures xs[0] == Queued(World(State(NewRing(), [], []), [Idle, Idle]), [], [])
  {
    hide WriteSection, ReadSection, NewRing, Get, Advance, Buffered, Empty, Waits;
    NewIsEmpty();
    var s, both := State(NewRing(), [], []), [Reading(cap), Reading(cap)];
    FindsEmpty(s, both, [], 0);
    FindsEmpty(s, both, [0], 1);
    acts := [Act(BeginRead(0, cap), 0), Act(BeginRead(1, cap), 0), Act(Section(0), 0), Act(Section(1), 0),
             Act(DropWrite, 0)];
    Begun(s, cap);
    var x4 := Queued(World(s, both), [0, 1], []);
    Closing(s, both);
    xs := [Queued(World(s, [Idle, Idle]), [], []), Queued(World(s, [Reading(cap), Idle]), [], []),
           Queued(World(s, both), [], []), Queued(World(s, both), [0], []), x4, Next(x4, acts[4])];
  }

  lemma Begun(s: State, cap: nat)
    requires |s.ring.buf| == PIPE_SIZE && s.ring.readRefs > 0
    ensures var x, y := Queued(World(s, [Idle, Idle]), [], []), Queued(World(s, [Reading(cap), Idle]), [], []);
            && Possible(x, Act(BeginRead(0, cap), 0)) && Next(x, Act(BeginRead(0, cap), 0)) == y
            && Possible(y, Act(BeginRead(1, cap), 0))
            && Next(y, Act(BeginRead(1, cap), 0)) == Queued(World(s, [Reading(cap), Reading(cap)]), [], [])
  {}

  lemma Closing(s: State, tasks: seq<Task>)
    requires |s.ring.buf| == PIPE_SIZE && s.ring.writeRefs == 1
    ensures var x := Queued(World(s, tasks), [0, 1], []);
            Possible(x, Act(DropWrite, 0)) && Next(x, Act(DropWrite, 0)).readers == [1]
  {
    assert [0, 1][..0] + [0, 1][1..] == [1];
  }
}
