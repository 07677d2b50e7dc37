/**
  Round-robin scheduling and context switching as a step function on values: the ring of thread
  ids, the tick counter, the running context and the contexts of the suspended threads.
  `Preemption` proves that the machine follows these steps; here is what they add up to over
  whole runs.
 */
module Scheduling {
  import opened Bits
  import opened Context

  const SCHED_SLICE: nat := 10

  /** The running thread is the first of the ring. */
  datatype Model = Model(ring: seq<nat>, ticks: nat, running: Context, saved: map<nat, Context>)

  /** The running thread does something, an interrupt arrives, or the running thread creates another. */
  datatype Event = Work(context: Context) | Irq(number: Word) | Create(entry: Word, stackTop: Word)

  /** `uint8_t actual_irq = irq_number - 32` */
  function ActualIrq(number: Word): nat {
    (number - 32) % 256
  }

  /** Of the 16 interrupts, number 32 is the timer, and 39 and 47 are the spurious ones. */
  lemma InterruptNumbers(number: Word)
    requires 32 <= number < 48
    ensures IsTimer(Irq(number)) <==> number == 32
    ensures ActualIrq(number) in {7, 15} <==> number == 39 || number == 47
  {
  }

  predicate IsTimer(e: Event) {
    e.Irq? && ActualIrq(e.number) == 0
  }

  /** This tick ends a time slice of one of several threads. */
  predicate Switches(m: Model, e: Event) {
    IsTimer(e) && |m.ring| > 1 && (m.ticks + 1) % SCHED_SLICE == 0
  }

  ghost predicate Distinct(s: seq<nat>) {
    forall i, j | 0 <= i < j < |s| :: s[i] != s[j]
  }

  ghost predicate Good(m: Model) {
    && |m.ring| > 0
    && Distinct(m.ring)
    && (forall t: nat :: t in m.ring <==> t < |m.ring|)
    && (forall t: nat :: t in m.saved <==> t in m.ring[1..])
  }

  function Next(m: Model, e: Event): Model
    requires Good(m)
  {
    match e
    case Work(c) => m.(running := c)
    case Irq(_) =>
      if !IsTimer(e) || |m.ring| == 1 then m
      else if !Switches(m, e) then m.(ticks := m.ticks + 1)
      else Model(m.ring[1..] + m.ring[..1], m.ticks + 1, m.saved[m.ring[1]],
                 m.saved[m.ring[0] := m.running] - {m.ring[1]})
    case Create(entry, top) =>
      m.(ring := m.ring[..1] + [|m.ring|] + m.ring[1..], saved := m.saved[|m.ring| := NewContext(entry, top)])
  }

  /** The list stays one cycle through every thread created, and exactly the others have a saved context. */
  lemma NextIsGood(m: Model, e: Event)
    requires Good(m)
    ensures Good(Next(m, e))
  {
    if Switches(m, e) {
      RotateIsGood(m, e);
    } else if e.Create? {
      CreateIsGood(m, e);
    }
  }

  lemma RotateIsGood(m: Model, e: Event)
    requires Good(m) && Switches(m, e)
    ensures Good(Next(m, e))
  {
    hide Distinct;
    var first, second, rest := m.ring[0], m.ring[1], m.ring[2..];
    assert m.ring == [first] + ([second] + rest) && m.ring[1..] == [second] + rest;
    assert m.ring[1..] + m.ring[..1] == [second] + (rest + [first]);
    RotatedIsGood(first, second, rest, m.ticks, m.running, m.saved);
  }

  lemma RotatedIsGood(first: nat, second: nat, rest: seq<nat>, ticks: nat, running: Context, saved: map<nat, Context>)
    requires Good(Model([first] + ([second] + rest), ticks, running, saved)) && second in saved
    ensures Good(Model([second] + (rest + [first]), ticks + 1, saved[second], saved[first := running] - {second}))
  {
    hide Distinct;
    var ring, ring', saved' := [first] + ([second] + rest), [second] + (rest + [first]), saved[first := running] - {second};
    RotatedDistinct(first, second, rest);
    assert ring[1..] == [second] + rest && ring'[1..] == rest + [first];
    forall t: nat
      ensures t in ring' <==> t < |ring'|
      ensures t in saved' <==> t in ring'[1..]
    {
      assert t in ring <==> t == first || t == second || t in rest;
      assert t in saved <==> t in ring[1..];
    }
  }

  lemma RotatedDistinct(first: nat, second: nat, rest: seq<nat>)
    requires Distinct([first] + ([second] + rest))
    ensures Distinct([second] + (rest + [first]))
    ensures first != second && first !in rest && second !in rest
  {
    var s, r := [first] + ([second] + rest), [second] + (rest + [first]);
    forall i | 0 <= i < |r|
      ensures r[i] == if i < |rest| + 1 then s[i + 1] else s[0]
    {
    }
    assert first != second by {
      assert s[0] != s[1];
    }
    assert forall i | 0 <= i < |rest| :: rest[i] == s[i + 2];
  }

  lemma CreateIsGood(m: Model, e: Event)
    requires Good(m) && e.Create?
    ensures Good(Next(m, e))
  {
    var ring := Next(m, e).ring;
    assert m.ring == m.ring[..1] + m.ring[1..];
    assert ring[1..] == [|m.ring|] + m.ring[1..];
    forall i, j | 0 <= i < j < |ring|
      ensures ring[i] != ring[j]
    {
      assert i > 1 ==> ring[i] == m.ring[i - 1];
      assert j > 1 ==> ring[j] == m.ring[j - 1];
      assert m.ring[0] in m.ring && (i > 1 ==> m.ring[i - 1] in m.ring) && (j > 1 ==> m.ring[j - 1] in m.ring);
    }
    assert forall t: nat :: t in ring <==> t in m.ring || t == |m.ring|;
  }

  function Run(m: Model, events: seq<Event>): (r: Model)
    requires Good(m)
    ensures Good(r)
    decreases |events|
  {
    if events == [] then m
    else
      NextIsGood(m, events[0]);
      Run(Next(m, events[0]), events[1..])
  }

  /** The threads switched in during a run, in order. */
  function SwitchIns(m: Model, events: seq<Event>): seq<nat>
    requires Good(m)
    decreases |events|
  {
    if events == [] then []
    else
      NextIsGood(m, events[0]);
      (if Switches(m, events[0]) then [m.ring[1]] else []) + SwitchIns(Next(m, events[0]), events[1..])
  }

  /** Another thread runs after an event exactly if it is a timer interrupt that completes ten ticks, and then it is the next of the ring. */
  lemma RunnerChanges(m: Model, number: Word)
    requires Good(m) && 32 <= number < 48
    ensures var n := Next(m, Irq(number));
            if number == 32 && |m.ring| > 1 && (m.ticks + 1) % 10 == 0
            then n.ring[0] == m.ring[1] != m.ring[0] && n.running == m.saved[m.ring[1]]
            else n.ring == m.ring && n.running == m.running && n.saved == m.saved
  {
    InterruptNumbers(number);
    assert |m.ring| > 1 ==> m.ring[1..][0] == m.ring[1] && m.ring[1] in m.ring[1..];
  }

  // ---------- transparency ----------

  /** While a thread is not switched in, nobody changes its saved context. */
  lemma {:induction false} SavedIsKept(m: Model, events: seq<Event>, t: nat)
    requires Good(m) && t in m.saved && t !in SwitchIns(m, events)
    ensures t in Run(m, events).saved && Run(m, events).saved[t] == m.saved[t]
    decreases |events|
  {
    if events != [] {
      NextIsGood(m, events[0]);
      NextKeepsSaved(m, events[0], t);
      SavedIsKept(Next(m, events[0]), events[1..], t);
    }
  }

  lemma NextKeepsSaved(m: Model, e: Event, t: nat)
    requires Good(m) && t in m.saved && (Switches(m, e) ==> t != m.ring[1])
    ensures t in Next(m, e).saved && Next(m, e).saved[t] == m.saved[t]
  {
    NotTheFirst(m, t);
  }

  lemma NotTheFirst(m: Model, t: nat)
    requires Good(m) && t in m.saved
    ensures t != m.ring[0] && t in m.ring && t < |m.ring|
  {
    var i :| 0 <= i < |m.ring[1..]| && m.ring[1..][i] == t;
    assert m.ring[i + 1] == t;
  }

  /** Thread t is not switched in during these events, and then it is. */
  predicate ComesBack(m: Model, t: nat, between: seq<Event>, back: Event)
    requires Good(m)
  {
    var n := Run(m, between);
    t !in SwitchIns(m, between) && Switches(n, back) && n.ring[1] == t
  }

  /** Preemption is invisible: whatever happens in between, a thread gets back the context it was interrupted in. */
  lemma Transparent(m: Model, out: Event, between: seq<Event>, back: Event)
    requires Good(m) && Switches(m, out)
    ensures Good(Next(m, out)) && m.ring[0] in Next(m, out).saved
    ensures ComesBack(Next(m, out), m.ring[0], between, back) ==>
              var n := Next(Run(Next(m, out), between), back);
              n.running == m.running && n.ring[0] == m.ring[0]
  {
    NextIsGood(m, out);
    assert m.ring[0] != m.ring[1];
    if m.ring[0] !in SwitchIns(Next(m, out), between) {
      SavedIsKept(Next(m, out), between, m.ring[0]);
    }
  }

  /** A new thread first runs with zeroed registers, from its entry point, on its own stack. */
  lemma FirstRun(m: Model, entry: Word, top: Word, between: seq<Event>, back: Event)
    requires Good(m)
    ensures Good(Next(m, Create(entry, top))) && |m.ring| in Next(m, Create(entry, top)).saved
    ensures var s := Next(m, Create(entry, top));
            ComesBack(s, |m.ring|, between, back) ==>
              Next(Run(s, between), back).running ==
              Context(Registers(0, 0, 0, 0, 0, 0, 0, 0, 0, 0, 0, 0, 0, 0, 0), entry, 0x08, 0x202, top, 0x10)
  {
    NextIsGood(m, Create(entry, top));
    if |m.ring| !in SwitchIns(Next(m, Create(entry, top)), between) {
      SavedIsKept(Next(m, Create(entry, top)), between, |m.ring|);
    }
  }

  // ---------- fairness ----------

  function Timers(events: seq<Event>): nat {
    if events == [] then 0 else (if IsTimer(events[0]) then 1 else 0) + Timers(events[1..])
  }

  function Creates(events: seq<Event>): nat {
    if events == [] then 0 else (if events[0].Create? then 1 else 0) + Creates(events[1..])
  }

  function Rotated(ring: seq<nat>): seq<nat>
    requires |ring| > 0
  {
    ring[1..] + ring[..1]
  }

  /** The next `count` threads in ring order, from the second on. */
  function Turns(ring: seq<nat>, count: nat): seq<nat>
    requires |ring| > 0
    decreases count
  {
    if count == 0 then [] else [Rotated(ring)[0]] + Turns(Rotated(ring), count - 1)
  }

  /** Without creation, the switches are every tenth tick and take the threads in turn. */
  lemma {:induction false} SwitchesAreTurns(m: Model, events: seq<Event>)
    requires Good(m) && |m.ring| > 1 && Creates(events) == 0
    ensures SwitchIns(m, events) == Turns(m.ring, (m.ticks % 10 + Timers(events)) / 10)
    decreases |events|
  {
    hide Good;
    if events != [] {
      var e, rest := events[0], events[1..];
      var n := Next(m, e);
      NextIsGood(m, e);
      SwitchesAreTurns(n, rest);
      if IsTimer(e) {
        OneTick(m, e, Timers(rest));
      }
    }
  }

  /** One tick, followed by `more`: a turn is taken now or not, and the rest follows. */
  lemma OneTick(m: Model, e: Event, more: nat)
    requires Good(m) && |m.ring| > 1 && IsTimer(e)
    ensures var n := Next(m, e);
            && |n.ring| == |m.ring|
            && Turns(m.ring, (m.ticks % SCHED_SLICE + 1 + more) / SCHED_SLICE) ==
               (if Switches(m, e) then [m.ring[1]] else []) + Turns(n.ring, (n.ticks % SCHED_SLICE + more) / SCHED_SLICE)
  {
    hide Good;
    TickCount(m.ticks, more);
    if Switches(m, e) {
      assert Next(m, e).ring == Rotated(m.ring) && Rotated(m.ring)[0] == m.ring[1];
    }
  }

  lemma TickCount(ticks: nat, more: nat)
    ensures (ticks + 1) % SCHED_SLICE == 0 ==>
              (ticks % SCHED_SLICE + 1 + more) / SCHED_SLICE == 1 + ((ticks + 1) % SCHED_SLICE + more) / SCHED_SLICE
    ensures (ticks + 1) % SCHED_SLICE != 0 ==>
              ticks % SCHED_SLICE + 1 + more == (ticks + 1) % SCHED_SLICE + more
  {
  }

  lemma {:induction false} TurnsGoAround(ring: seq<nat>, count: nat)
    requires 0 < count <= |ring|
    ensures Turns(ring, count) == Rotated(ring)[..count]
    decreases count
  {
    if count > 1 {
      TurnsGoAround(Rotated(ring), count - 1);
      assert Rotated(Rotated(ring))[..count - 1] == Rotated(ring)[1..count];
    } else {
      assert Turns(Rotated(ring), 0) == [];
    }
  }

  /** Any 10n consecutive ticks switch in each of n threads exactly once, in ring order. */
  lemma RoundRobin(m: Model, events: seq<Event>)
    requires Good(m) && |m.ring| > 1 && Creates(events) == 0 && Timers(events) == 10 * |m.ring|
    ensures SwitchIns(m, events) == m.ring[1..] + [m.ring[0]]
    ensures forall t: nat | t < |m.ring| :: multiset(SwitchIns(m, events))[t] == 1
  {
    hide Good;
    SwitchesAreTurns(m, events);
    assert (m.ticks % 10 + Timers(events)) / 10 == |m.ring|;
    TurnsGoAround(m.ring, |m.ring|);
    EachOnce(m);
  }

  lemma EachOnce(m: Model)
    requires Good(m)
    ensures m.ring[1..] + [m.ring[0]] == Rotated(m.ring)
    ensures forall t: nat | t < |m.ring| :: multiset(m.ring[1..] + [m.ring[0]])[t] == 1
  {
    assert m.ring == [m.ring[0]] + m.ring[1..];
    assert multiset(m.ring[1..] + [m.ring[0]]) == multiset(m.ring);
    forall t: nat | t < |m.ring|
      ensures multiset(m.ring)[t] == 1
    {
      assert t in m.ring;
      OnlyOnce(m.ring, t);
    }
  }

  lemma {:induction false} OnlyOnce(s: seq<nat>, t: nat)
    requires t in s && Distinct(s)
    ensures multiset(s)[t] == 1
  {
    assert s == s[..1] + s[1..];
    if s[0] == t {
      assert t !in s[1..];
    } else {
      OnlyOnce(s[1..], t);
    }
  }

  /** A thread d steps away that has not run yet has waited less than 10 (d + k) ticks, if k threads were created meanwhile. */
  lemma {:induction false} WaitingBound(m: Model, events: seq<Event>, d: nat)
    requires Good(m) && 0 < d < |m.ring| && m.ring[d] !in SwitchIns(m, events)
    ensures m.ticks % 10 + Timers(events) < 10 * (d + Creates(events))
    decreases |events|
  {
    hide Good;
    if events != [] {
      var e := events[0];
      var n := Next(m, e);
      NextIsGood(m, e);
      TickCount(m.ticks, 0);
      if Switches(m, e) {
        assert SwitchIns(m, events)[0] == m.ring[1];
        assert n.ring[d - 1] == m.ring[d];
        WaitingBound(n, events[1..], d - 1);
      } else if e.Create? {
        assert n.ring[d + 1] == m.ring[d];
        WaitingBound(n, events[1..], d + 1);
      } else {
        WaitingBound(n, events[1..], d);
      }
    }
  }
}
