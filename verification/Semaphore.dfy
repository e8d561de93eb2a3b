/**
 The counting semaphore, over every interleaving of the sections that run with interrupts off.
 A thread that wakes a waiter of higher priority gives up the processor before it has counted
 the value up.
 */
module Semaphore {

  /** Where a thread stands with the semaphore. */
  datatype Status = Away | Queued | Woken | MidUp

  /** Threads are numbered; waiters are in the order they queued. */
  datatype State = State(value: nat, waiters: seq<nat>, status: seq<Status>, ups: nat, downs: nat)

  type Priorities = seq<int>

  predicate Shaped(s: State, pri: Priorities)
  {
    |s.status| == |pri| && forall i :: 0 <= i < |s.waiters| ==> s.waiters[i] < |pri|
  }

  /** The first waiter of highest priority. */
  function Best(waiters: seq<nat>, pri: Priorities): (b: nat)
    requires waiters != [] && forall i :: 0 <= i < |waiters| ==> waiters[i] < |pri|
    ensures b < |waiters| && forall i :: 0 <= i < |waiters| ==> pri[waiters[i]] <= pri[waiters[b]]
    ensures forall i :: 0 <= i < b ==> pri[waiters[i]] < pri[waiters[b]]
  {
    var n := |waiters| - 1;
    if n == 0 then 0 else
      var b := Best(waiters[..n], pri);
      if pri[waiters[n]] > pri[waiters[b]] then n else b
  }

  datatype Event = Down(t: nat) | Resume(t: nat) | TryDown(t: nat) | Up(t: nat, interrupt: bool) | FinishUp(t: nat)

  predicate Enabled(s: State, e: Event)
  {
    && e.t < |s.status|
    && match e
       case Resume(t) => s.status[t] == Woken
       case FinishUp(t) => s.status[t] == MidUp
       case _ => s.status[e.t] == Away
  }

  /** The body of down's loop: take one, or queue and block. */
  function TakeOrQueue(s: State, t: nat): State
    requires t < |s.status|
  {
    if s.value == 0 then s.(waiters := s.waiters + [t], status := s.status[t := Queued])
    else s.(value := s.value - 1, status := s.status[t := Away], downs := s.downs + 1)
  }

  function Raised(s: State): State { s.(value := s.value + 1, ups := s.ups + 1) }

  /** A waiter woken in favour of the signaller's priority or not. */
  predicate Outranked(s: State, pri: Priorities, t: nat)
    requires Shaped(s, pri) && t < |pri|
  {
    s.waiters != [] && pri[s.waiters[Best(s.waiters, pri)]] > pri[t]
  }

  function Step(s: State, pri: Priorities, e: Event): State
    requires Shaped(s, pri) && Enabled(s, e)
  {
    match e
    case Down(t) => TakeOrQueue(s, t)
    case Resume(t) => TakeOrQueue(s, t)
    case TryDown(t) => if s.value == 0 then s else s.(value := s.value - 1, downs := s.downs + 1)
    case FinishUp(t) => Raised(s).(status := s.status[t := Away])
    case Up(t, interrupt) =>
      if s.waiters == [] then Raised(s)
      else
        var b := Best(s.waiters, pri);
        var s1 := s.(waiters := Without(s.waiters, b), status := s.status[s.waiters[b] := Woken]);
        if !interrupt && Outranked(s, pri, t) then s1.(status := s1.status[t := MidUp]) else Raised(s1)
  }

  // ---- counting -----------------------------------------------------------------------------------------

  function CountStatus(st: seq<Status>, x: Status): nat
  {
    if st == [] then 0 else CountStatus(st[..|st| - 1], x) + if st[|st| - 1] == x then 1 else 0
  }

  lemma {:induction false} CountUpdate(st: seq<Status>, i: nat, y: Status, x: Status)
    requires i < |st|
    ensures CountStatus(st[i := y], x) + (if st[i] == x then 1 else 0) == CountStatus(st, x) + if y == x then 1 else 0
  {
    var n := |st| - 1;
    if i < n {
      CountUpdate(st[..n], i, y, x);
      assert st[i := y][..n] == st[..n][i := y];
    } else {
      assert st[i := y][..n] == st[..n];
    }
  }

  /** Waiters are exactly the queued threads, each once. */
  ghost predicate Inv(s: State, pri: Priorities, initial: nat)
  {
    && Shaped(s, pri) && s.value + s.downs == initial + s.ups
    && (forall i :: 0 <= i < |s.waiters| ==> s.status[s.waiters[i]] == Queued)
    && (forall i, j :: 0 <= i < j < |s.waiters| ==> s.waiters[i] != s.waiters[j])
  }

  function Start(pri: Priorities, initial: nat): State { State(initial, [], seq(|pri|, _ => Away), 0, 0) }

  function Without(waiters: seq<nat>, b: nat): seq<nat>
    requires b < |waiters|
  {
    waiters[..b] + waiters[b + 1..]
  }

  lemma WithoutBest(s: State, pri: Priorities, initial: nat, b: nat)
    requires Inv(s, pri, initial) && b < |s.waiters|
    ensures Inv(s.(waiters := Without(s.waiters, b), status := s.status[s.waiters[b] := Woken]), pri, initial)
  {
    var rest := Without(s.waiters, b);
    forall i | 0 <= i < |rest| ensures rest[i] in s.waiters && rest[i] != s.waiters[b] {
      assert rest[i] == s.waiters[if i < b then i else i + 1];
    }
    forall i, j | 0 <= i < j < |rest| ensures rest[i] != rest[j] {
      assert rest[i] == s.waiters[if i < b then i else i + 1] && rest[j] == s.waiters[if j < b then j else j + 1];
    }
  }

  lemma StepKeeps(s: State, pri: Priorities, initial: nat, e: Event)
    requires Inv(s, pri, initial) && Enabled(s, e)
    ensures Inv(Step(s, pri, e), pri, initial)
  {
    hide Best, Without;
    if e.Up? && s.waiters != [] { WithoutBest(s, pri, initial, Best(s.waiters, pri)); }
  }

  // ---- no lost wake-up --------------------------------------------------------------------------------------

  /** While threads are queued, enough of them have been woken to use up the value. */
  ghost predicate NoneLost(s: State) { s.waiters != [] ==> CountStatus(s.status, Woken) >= s.value }

  /** The event does not give up the processor between waking a waiter and counting up. */
  predicate Undivided(s: State, pri: Priorities, e: Event)
    requires Shaped(s, pri)
  {
    !e.FinishUp? && (e.Up? && !e.interrupt && e.t < |pri| ==> !Outranked(s, pri, e.t))
  }

  lemma UndividedKeeps(s: State, pri: Priorities, initial: nat, e: Event)
    requires Inv(s, pri, initial) && Enabled(s, e) && Undivided(s, pri, e) && NoneLost(s)
    ensures NoneLost(Step(s, pri, e))
  {
    match e
    case Down(t) => CountUpdate(s.status, t, Queued, Woken); CountUpdate(s.status, t, Away, Woken);
    case Resume(t) => CountUpdate(s.status, t, Queued, Woken); CountUpdate(s.status, t, Away, Woken);
    case Up(t, _) =>
      if s.waiters != [] { CountUpdate(s.status, s.waiters[Best(s.waiters, pri)], Woken, Woken); }
    case _ =>
  }

  ghost predicate Run(ss: seq<State>, es: seq<Event>, pri: Priorities, initial: nat)
  {
    && |ss| == |es| + 1 && ss[0] == Start(pri, initial)
    && forall i :: 0 <= i < |es| ==> Shaped(ss[i], pri) && Enabled(ss[i], es[i]) && ss[i + 1] == Step(ss[i], pri, es[i])
  }

  /** In every interleaving the value is the initial one plus the ups counted minus the downs completed. */
  lemma {:induction false} ValueIsBalance(ss: seq<State>, es: seq<Event>, pri: Priorities, initial: nat, i: nat)
    requires Run(ss, es, pri, initial) && i < |ss|
    ensures Inv(ss[i], pri, initial) && ss[i].value == initial + ss[i].ups - ss[i].downs
  {
    if i > 0 {
      ValueIsBalance(ss, es, pri, initial, i - 1);
      StepKeeps(ss[i - 1], pri, initial, es[i - 1]);
      assert ss[i - 1 + 1] == Step(ss[i - 1], pri, es[i - 1]);
    }
  }

  /** What a step adds to the calls of up, to those of down and to the successful calls of try_down. */
  function Begun(s: State, e: Event): (int, int)
  {
    (if e.Up? then 1 else 0, if e.Down? || (e.TryDown? && s.value > 0) then 1 else 0)
  }

  /** Calls of up and of down so far that have their effect. */
  function Effects(s: State): (int, int)
  {
    (s.ups + CountStatus(s.status, MidUp), s.downs + CountStatus(s.status, Queued) + CountStatus(s.status, Woken))
  }

  lemma StepCounts(s: State, pri: Priorities, initial: nat, e: Event)
    requires Inv(s, pri, initial) && Enabled(s, e)
    ensures var s' := Step(s, pri, e);
            && Effects(s').0 == Effects(s).0 + Begun(s, e).0
            && Effects(s').1 == Effects(s).1 + Begun(s, e).1
  {
    hide CountStatus, Best;
    Moved(s.status, e.t, Queued);
    Moved(s.status, e.t, Away);
    Moved(s.status, e.t, MidUp);
    if e.Up? && s.waiters != [] {
      var w := s.waiters[Best(s.waiters, pri)];
      Moved(s.status, w, Woken);
      Moved(s.status[w := Woken], e.t, MidUp);
    }
  }

  /** A thread's change of status in all four counts. */
  lemma Moved(st: seq<Status>, t: nat, y: Status)
    requires t < |st|
    ensures forall x :: CountStatus(st[t := y], x) ==
                        CountStatus(st, x) + (if y == x then 1 else 0) - if st[t] == x then 1 else 0
  {
    forall x ensures CountStatus(st[t := y], x) ==
                     CountStatus(st, x) + (if y == x then 1 else 0) - if st[t] == x then 1 else 0 {
      CountUpdate(st, t, y, x);
    }
  }

  /** The calls of a run up to its i-th step. */
  function Calls(ss: seq<State>, es: seq<Event>, i: nat): (int, int)
    requires i <= |es| <= |ss|
  {
    if i == 0 then (0, 0) else
      var c, b := Calls(ss, es, i - 1), Begun(ss[i - 1], es[i - 1]);
      (c.0 + b.0, c.1 + b.1)
  }

  /** In every interleaving no call is counted twice or left out: the value is the initial one, plus the ups
      called and not still in the middle, minus the downs called and not still waiting. */
  lemma {:induction false} CallsBalance(ss: seq<State>, es: seq<Event>, pri: Priorities, initial: nat, i: nat)
    requires Run(ss, es, pri, initial) && i < |ss|
    ensures Calls(ss, es, i) == Effects(ss[i])
    ensures ss[i].value == initial + Calls(ss, es, i).0 - CountStatus(ss[i].status, MidUp)
                           - (Calls(ss, es, i).1 - CountStatus(ss[i].status, Queued) - CountStatus(ss[i].status, Woken))
  {
    hide CountStatus, Inv, Step, Begun;
    ValueIsBalance(ss, es, pri, initial, i);
    CallsTakeEffect(ss, es, pri, initial, i);
  }

  lemma {:induction false} CallsTakeEffect(ss: seq<State>, es: seq<Event>, pri: Priorities, initial: nat, i: nat)
    requires Run(ss, es, pri, initial) && i < |ss|
    ensures Calls(ss, es, i) == Effects(ss[i])
  {
    hide CountStatus, Inv, Step, Begun;
    if i > 0 {
      CallsTakeEffect(ss, es, pri, initial, i - 1);
      ValueIsBalance(ss, es, pri, initial, i - 1);
      StepCounts(ss[i - 1], pri, initial, es[i - 1]);
      assert ss[i - 1 + 1] == Step(ss[i - 1], pri, es[i - 1]);
    } else {
      NobodyYet(|pri|);
    }
  }

  lemma {:induction false} NobodyYet(n: nat)
    ensures var st := seq(n, _ => Away);
            CountStatus(st, MidUp) == 0 && CountStatus(st, Queued) == 0 && CountStatus(st, Woken) == 0
  {
    if n > 0 {
      NobodyYet(n - 1);
      assert seq(n, _ => Away)[..n - 1] == seq(n - 1, _ => Away);
    }
  }

  /** In every run in which no woken waiter outranks its signaller, no wake-up is lost. */
  lemma {:induction false} NoWakeUpLost(ss: seq<State>, es: seq<Event>, pri: Priorities, initial: nat, i: nat)
    requires Run(ss, es, pri, initial) && i < |ss| && forall k :: 0 <= k < i ==> Undivided(ss[k], pri, es[k])
    ensures NoneLost(ss[i])
  {
    if i > 0 {
      NoWakeUpLost(ss, es, pri, initial, i - 1);
      ValueIsBalance(ss, es, pri, initial, i - 1);
      UndividedKeeps(ss[i - 1], pri, initial, es[i - 1]);
      assert ss[i - 1 + 1] == Step(ss[i - 1], pri, es[i - 1]);
    }
  }

  // ---- exactly when ------------------------------------------------------------------------------------------

  ghost predicate NeverLost(pri: Priorities, initial: nat)
  {
    forall ss, es, i :: Run(ss, es, pri, initial) && 0 <= i < |ss| ==> NoneLost(ss[i])
  }

  predicate EqualPriorities(pri: Priorities) { forall a, b :: 0 <= a < |pri| && 0 <= b < |pri| ==> pri[a] == pri[b] }

  lemma {:induction false} EqualIsUndivided(ss: seq<State>, es: seq<Event>, pri: Priorities, initial: nat, i: nat)
    requires Run(ss, es, pri, initial) && EqualPriorities(pri) && i < |ss|
    ensures MidUp !in ss[i].status && forall k :: 0 <= k < i ==> Undivided(ss[k], pri, es[k])
  {
    if i > 0 {
      EqualIsUndivided(ss, es, pri, initial, i - 1);
      assert ss[i - 1 + 1] == Step(ss[i - 1], pri, es[i - 1]);
    }
  }

  /** After k downs by a thread, none of which had to wait. */
  function Drained(pri: Priorities, initial: nat, k: nat): State
    requires k <= initial
  {
    Start(pri, initial).(value := initial - k, downs := k)
  }

  /** A waiter of higher priority is woken before the value is counted up, finds it still zero and
      queues again; then the value is counted up with nobody left to use it. */
  lemma WakeUpLost(pri: Priorities, initial: nat, a: nat, w: nat) returns (ss: seq<State>, es: seq<Event>)
    requires a < |pri| && w < |pri| && pri[w] > pri[a]
    ensures Run(ss, es, pri, initial) && |ss| == initial + 5 && !NoneLost(ss[initial + 4])
  {
    var d := Drained(pri, initial, initial);
    var q := d.(waiters := [w], status := d.status[w := Queued]);
    var m := q.(waiters := [], status := q.status[w := Woken][a := MidUp]);
    var r := m.(waiters := [w], status := m.status[w := Queued]);
    var f := r.(value := 1, ups := 1, status := r.status[a := Away]);
    ss := seq(initial + 1, k requires 0 <= k <= initial => Drained(pri, initial, k)) + [q, m, r, f];
    es := seq(initial, _ => Down(w)) + [Down(w), Up(a, false), Resume(w), FinishUp(a)];
    assert Step(q, pri, Up(a, false)) == m;
    forall i | 0 <= i < |es| ensures Shaped(ss[i], pri) && Enabled(ss[i], es[i]) &&
        ss[i + 1] == Step(ss[i], pri, es[i]) {
      if i < initial {
        DrainedStep(pri, initial, i, w);
      }
    }
    NoneWoken(f.status);
  }

  lemma DrainedStep(pri: Priorities, initial: nat, k: nat, w: nat)
    requires k < initial && w < |pri|
    ensures Step(Drained(pri, initial, k), pri, Down(w)) == Drained(pri, initial, k + 1)
  {
    assert Drained(pri, initial, k).status[w := Away] == Drained(pri, initial, k).status;
  }

  lemma {:induction false} NoneWoken(st: seq<Status>)
    requires Woken !in st
    ensures CountStatus(st, Woken) == 0
  {
    if st != [] { NoneWoken(st[..|st| - 1]); }
  }

  /** No interleaving loses a wake-up exactly when all threads have the same priority. */
  lemma NeverLostIffEqual(pri: Priorities, initial: nat)
    ensures NeverLost(pri, initial) <==> EqualPriorities(pri)
  {
    if EqualPriorities(pri) {
      forall ss, es, i | Run(ss, es, pri, initial) && 0 <= i < |ss| ensures NoneLost(ss[i]) {
        EqualIsUndivided(ss, es, pri, initial, i);
        NoWakeUpLost(ss, es, pri, initial, i);
      }
    } else {
      var a, b :| 0 <= a < |pri| && 0 <= b < |pri| && pri[a] != pri[b];
      var ss, es := WakeUpLost(pri, initial, if pri[a] < pri[b] then a else b, if pri[a] < pri[b] then b else a);
    }
  }

  // ---- in place ------------------------------------------------------------------------------------------------

  class Sema {
    var value: nat
    var waiters: seq<nat>

    constructor (value: nat)
      ensures this.value == value && waiters == []
    {
      this.value, waiters := value, [];
    }

    /** One pass of down's loop by the running thread: true when it has its unit, false when it has
        queued and must block. */
    method DownSection(t: nat, ghost s: State) returns (got: bool)
      requires s.value == value && s.waiters == waiters && t < |s.status|
      modifies this
      ensures value == TakeOrQueue(s, t).value && waiters == TakeOrQueue(s, t).waiters
      ensures got <==> TakeOrQueue(s, t).downs == s.downs + 1
    {
      if value == 0 {
        waiters := waiters + [t];
        return false;
      }
      value := value - 1;
      got := true;
    }

    method TryDownNow() returns (ok: bool)
      modifies this`value
      ensures ok == (old(value) > 0) && value == if ok then old(value) - 1 else old(value)
    {
      ok := value > 0;
      if ok { value := value - 1; }
    }

    /** The waiter up wakes: the first of highest priority. */
    method RemoveBest(pri: Priorities) returns (w: nat)
      requires waiters != [] && forall i :: 0 <= i < |waiters| ==> waiters[i] < |pri|
      modifies this`waiters
      ensures w == old(waiters)[Best(old(waiters), pri)] && waiters == Without(old(waiters), Best(old(waiters), pri))
    {
      var best := 0;
      for i := 1 to |waiters|
        invariant waiters == old(waiters) && best == Best(waiters[..i], pri)
      {
        assert waiters[..i + 1][..i] == waiters[..i];
        if pri[waiters[i]] > pri[waiters[best]] { best := i; }
      }
      assert waiters[..|waiters|] == waiters;
      w := waiters[best];
      waiters := waiters[..best] + waiters[best + 1..];
    }

    /** up, as far as it runs without giving up the processor: divided when the woken waiter outranks
        the signaller and the value is still to be counted up. */
    method UpSection(t: nat, interrupt: bool, pri: Priorities, ghost s: State) returns (divided: bool)
      requires s.value == value && s.waiters == waiters && Shaped(s, pri) && t < |pri| && Enabled(s, Up(t, interrupt))
      modifies this
      ensures value == Step(s, pri, Up(t, interrupt)).value && waiters == Step(s, pri, Up(t, interrupt)).waiters
      ensures divided <==> !interrupt && Outranked(s, pri, t)
    {
      divided := false;
      if waiters != [] {
        var w := RemoveBest(pri);
        divided := !interrupt && pri[w] > pri[t];
      }
      if !divided { value := value + 1; }
    }
  }
}
