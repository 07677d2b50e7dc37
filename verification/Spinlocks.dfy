/**
  The spinlock of lib/spinlock.c on any number of processors, step by step in any interleaving.
 */
module Spinlocks {
  import opened Bits
  import opened Processors

  /**
    Where a processor is: outside, spinning with its flags saved in a register, holding the lock
    before and after the flags are stored in it, and releasing: flags read, lock cleared.
   */
  datatype Place = Outside | Spinning | Won | Holding | FlagsRead | Cleared

  /** `saved` is the local `rflags`; `before` remembers the flags from before the acquire. */
  datatype Cpu = Cpu(place: Place, flags: Word, saved: Word, before: Word)

  /** `locked` and `rflags` of the lock, and the processors. */
  datatype State = State(locked: bool, rflags: Word, cpus: seq<Cpu>)

  /** Processor i runs the next step of acquire or release, or code elsewhere that leaves it these flags. */
  datatype Event = Acquire(i: nat) | Release(i: nat) | Other(i: nat, flags: Word)

  function Next(s: State, e: Event): State {
    if e.i >= |s.cpus| then s
    else
      var c := s.cpus[e.i];
      match e
      case Acquire(i) => Acquiring(s, i, c)
      case Release(i) => Releasing(s, i, c)
      case Other(i, flags) => Elsewhere(s, i, c, flags)
  }

  function Acquiring(s: State, i: nat, c: Cpu): State
    requires i < |s.cpus|
  {
    match c.place
    case Outside => // pushfq; pop; cli
      s.(cpus := s.cpus[i := Cpu(Spinning, Cli(c.flags), c.flags, c.flags)])
    case Spinning => // test and set
      State(true, s.rflags, s.cpus[i := c.(place := if s.locked then Spinning else Won)])
    case Won => // lock->rflags = rflags
      State(s.locked, c.saved, s.cpus[i := c.(place := Holding)])
    case _ => s
  }

  function Releasing(s: State, i: nat, c: Cpu): State
    requires i < |s.cpus|
  {
    match c.place
    case Holding => // rflags = lock->rflags
      s.(cpus := s.cpus[i := c.(place := FlagsRead, saved := s.rflags)])
    case FlagsRead => // clear
      State(false, s.rflags, s.cpus[i := c.(place := Cleared)])
    case Cleared => // popfq
      s.(cpus := s.cpus[i := c.(place := Outside, flags := c.saved)])
    case _ => s
  }

  /** Other code changes the flags; while it works on the lock or holds it, it does not turn interrupts on. */
  function Elsewhere(s: State, i: nat, c: Cpu, flags: Word): State
    requires i < |s.cpus|
  {
    if c.place == Outside || !InterruptsOn(flags) then s.(cpus := s.cpus[i := c.(flags := flags)]) else s
  }

  function Run(s: State, events: seq<Event>): State
    decreases |events|
  {
    if events == [] then s else Run(Next(s, events[0]), events[1..])
  }

  // ---------- what every run keeps ----------

  /** The processor has the lock. */
  predicate Holds(c: Cpu) {
    c.place in {Won, Holding, FlagsRead}
  }

  ghost predicate CpuGood(s: State, c: Cpu) {
    && (c.place != Outside ==> !InterruptsOn(c.flags) && c.saved == c.before)
    && (Holds(c) ==> s.locked)
    && (c.place == Holding ==> s.rflags == c.before)
  }

  ghost predicate GoodAt(s: State, i: nat)
    requires i < |s.cpus|
  {
    CpuGood(s, s.cpus[i])
  }

  ghost predicate HoldsAt(s: State, i: nat)
    requires i < |s.cpus|
  {
    Holds(s.cpus[i])
  }

  /** At most one processor holds the lock, and exactly one if it is locked. */
  ghost predicate Good(s: State) {
    && (forall i: nat | i < |s.cpus| :: GoodAt(s, i))
    && (forall i: nat, j: nat | i < j < |s.cpus| :: !(HoldsAt(s, i) && HoldsAt(s, j)))
    && (s.locked ==> exists i: nat :: i < |s.cpus| && HoldsAt(s, i))
  }

  /** A free lock and all processors outside. */
  ghost predicate Initial(s: State) {
    !s.locked && forall i | 0 <= i < |s.cpus| :: s.cpus[i].place == Outside
  }

  lemma NextIsGood(s: State, e: Event)
    requires Good(s)
    ensures Good(Next(s, e)) && |Next(s, e).cpus| == |s.cpus|
  {
    if e.i < |s.cpus| {
      var n := Next(s, e);
      assert GoodAt(s, e.i);
      forall j: nat | j < |s.cpus|
        ensures GoodAt(n, j)
        ensures j != e.i ==> (HoldsAt(n, j) <==> HoldsAt(s, j))
      {
        assert GoodAt(s, j);
        if j < e.i {
          assert !(HoldsAt(s, j) && HoldsAt(s, e.i));
        } else if j > e.i {
          assert !(HoldsAt(s, e.i) && HoldsAt(s, j));
        }
      }
      OneHolder(s, n, e);
    }
  }

  lemma OneHolder(s: State, n: State, e: Event)
    requires Good(s) && e.i < |s.cpus| && n == Next(s, e)
    requires forall j: nat | j < |s.cpus| && j != e.i :: HoldsAt(n, j) <==> HoldsAt(s, j)
    ensures forall i: nat, j: nat | i < j < |n.cpus| :: !(HoldsAt(n, i) && HoldsAt(n, j))
    ensures n.locked ==> exists i: nat :: i < |n.cpus| && HoldsAt(n, i)
  {
    assert GoodAt(s, e.i);
    assert forall j: nat | j < |s.cpus| && HoldsAt(s, j) :: GoodAt(s, j);
    if n.locked && !HoldsAt(n, e.i) {
      var j: nat :| j < |s.cpus| && HoldsAt(s, j);
      assert HoldsAt(n, j) && j < |n.cpus|;
    } else if n.locked {
      assert HoldsAt(n, e.i) && e.i < |n.cpus|;
    }
    forall i: nat, j: nat | i < j < |n.cpus|
      ensures !(HoldsAt(n, i) && HoldsAt(n, j))
    {
      assert !(HoldsAt(s, i) && HoldsAt(s, j));
    }
  }

  lemma {:induction false} RunIsGood(s: State, events: seq<Event>)
    requires Good(s)
    ensures Good(Run(s, events)) && |Run(s, events).cpus| == |s.cpus|
    decreases |events|
  {
    if events != [] {
      NextIsGood(s, events[0]);
      RunIsGood(Next(s, events[0]), events[1..]);
    }
  }

  /** In every interleaving at most one processor holds the lock, and it runs with interrupts off. */
  lemma MutualExclusion(s: State, events: seq<Event>)
    requires Initial(s)
    ensures var r := Run(s, events);
            && (forall i: nat, j: nat | i < j < |r.cpus| :: !(HoldsAt(r, i) && HoldsAt(r, j)))
            && (forall i: nat | i < |r.cpus| && HoldsAt(r, i) :: r.locked && !InterruptsOn(r.cpus[i].flags))
            && (r.locked ==> exists i: nat :: i < |r.cpus| && HoldsAt(r, i))
  {
    RunIsGood(s, events);
    var r := Run(s, events);
    forall i: nat | i < |r.cpus| && HoldsAt(r, i)
      ensures r.locked && !InterruptsOn(r.cpus[i].flags)
    {
      assert GoodAt(r, i);
    }
  }

  /** Only the holder writes the flags stored in the lock. */
  lemma WrittenByHolder(s: State, events: seq<Event>, e: Event)
    requires Initial(s)
    ensures var r := Run(s, events);
            Next(r, e).rflags != r.rflags ==>
              && e.i < |r.cpus| && HoldsAt(r, e.i)
              && forall j: nat | j < |r.cpus| && j != e.i :: !HoldsAt(r, j)
  {
    RunIsGood(s, events);
    var r := Run(s, events);
    if Next(r, e).rflags != r.rflags {
      forall j: nat | j < |r.cpus| && j != e.i
        ensures !HoldsAt(r, j)
      {
        assert j < e.i ==> !(HoldsAt(r, j) && HoldsAt(r, e.i));
        assert e.i < j ==> !(HoldsAt(r, e.i) && HoldsAt(r, j));
      }
    }
  }

  // ---------- the interrupt state comes back ----------

  /** Processor i is between acquire and release all through the run. */
  ghost predicate Inside(s: State, events: seq<Event>, i: nat)
    decreases |events|
  {
    && i < |s.cpus| && s.cpus[i].place != Outside
    && (events != [] ==> Inside(Next(s, events[0]), events[1..], i))
  }

  lemma {:induction false} BeforeIsKept(s: State, events: seq<Event>, i: nat)
    requires Inside(s, events, i)
    ensures var r := Run(s, events);
            i < |r.cpus| && r.cpus[i].place != Outside && r.cpus[i].before == s.cpus[i].before
    decreases |events|
  {
    if events != [] {
      BeforeIsKept(Next(s, events[0]), events[1..], i);
    }
  }

  /** A release gives back exactly the flags its processor had before the acquire, whatever the others do. */
  lemma FlagsComeBack(s: State, i: nat, events: seq<Event>)
    requires Good(s) && i < |s.cpus| && s.cpus[i].place == Outside
    requires Inside(Next(s, Acquire(i)), events, i)
    ensures var r := Run(Next(s, Acquire(i)), events);
            && i < |r.cpus|
            && (Next(r, Release(i)).cpus[i].place == Outside ==> Next(r, Release(i)).cpus[i].flags == s.cpus[i].flags)
  {
    NextIsGood(s, Acquire(i));
    RunIsGood(Next(s, Acquire(i)), events);
    BeforeIsKept(Next(s, Acquire(i)), events, i);
    assert GoodAt(Run(Next(s, Acquire(i)), events), i);
  }

  // ---------- progress ----------

  /** A spinning processor takes the lock with its next step if it is free, and waits if it is not. */
  lemma TakesFreeLock(s: State, i: nat)
    requires i < |s.cpus| && s.cpus[i].place == Spinning
    ensures var n := Next(s, Acquire(i));
            if s.locked then n == s else n.locked && n.cpus[i].place == Won
  {
  }

  /** From outside, a free lock is taken in two steps and held, with the flags stored, in three. */
  lemma AcquiredInThree(s: State, i: nat)
    requires i < |s.cpus| && s.cpus[i].place == Outside && !s.locked
    ensures var n := Run(s, [Acquire(i), Acquire(i)]);
            n.locked && i < |n.cpus| && n.cpus[i].place == Won
    ensures var n := Run(s, [Acquire(i), Acquire(i), Acquire(i)]);
            n.locked && i < |n.cpus| && n.cpus[i].place == Holding && n.rflags == s.cpus[i].flags
  {
    var s1 := Next(s, Acquire(i));
    var s2 := Next(s1, Acquire(i));
    assert Run(s2, []) == s2 && Run(s1, [Acquire(i)]) == Run(s2, []);
    assert Run(s, [Acquire(i), Acquire(i)]) == Run(s1, [Acquire(i)]);
    assert Run(s2, [Acquire(i)]) == Next(s2, Acquire(i));
    assert Run(s1, [Acquire(i), Acquire(i)]) == Run(s2, [Acquire(i)]);
    assert Run(s, [Acquire(i), Acquire(i), Acquire(i)]) == Run(s1, [Acquire(i), Acquire(i)]);
  }

  /** Release steps of processor i in a run. */
  function Releases(events: seq<Event>, i: nat): nat {
    if events == [] then 0 else (if events[0] == Release(i) then 1 else 0) + Releases(events[1..], i)
  }

  /** Release steps processor i still needs to be outside. */
  function ToRelease(p: Place): nat {
    match p
    case Holding => 3
    case FlagsRead => 2
    case Cleared => 1
    case _ => 0
  }

  /** Three release steps bring a holder outside, whatever the others do in between. */
  lemma {:induction false} ReleasedInThree(s: State, events: seq<Event>, i: nat)
    requires i < |s.cpus| && s.cpus[i].place in {Holding, FlagsRead, Cleared}
    requires Releases(events, i) == ToRelease(s.cpus[i].place) && Acquire(i) !in events
    ensures i < |Run(s, events).cpus| && Run(s, events).cpus[i].place == Outside
    decreases |events|
  {
    var n := Next(s, events[0]);
    assert events[0] in events;
    assert n.cpus[i].place == s.cpus[i].place || events[0] == Release(i);
    if n.cpus[i].place == Outside {
      StaysOutside(n, events[1..], i);
    } else {
      ReleasedInThree(n, events[1..], i);
    }
  }

  lemma {:induction false} StaysOutside(s: State, events: seq<Event>, i: nat)
    requires i < |s.cpus| && s.cpus[i].place == Outside && Acquire(i) !in events
    ensures i < |Run(s, events).cpus| && Run(s, events).cpus[i].place == Outside
    decreases |events|
  {
    if events != [] {
      assert events[0] in events;
      StaysOutside(Next(s, events[0]), events[1..], i);
    }
  }

  /** The second of them leaves the lock free, for the next to take. */
  lemma SecondReleaseFrees(s: State, i: nat)
    requires i < |s.cpus| && s.cpus[i].place == FlagsRead
    ensures !Next(s, Release(i)).locked && Next(s, Release(i)).cpus[i].place == Cleared
  {
  }

  // ---------- the routines themselves ----------

  /** The lock and the processors in memory; each method is one step of `spinlock_acquire` or `spinlock_release`. */
  class Machine {
    var locked: bool
    var rflags: Word
    const cpus: array<Cpu>

    ghost function View(): State
      reads this, cpus
    {
      State(locked, rflags, cpus[..])
    }

    constructor (cpus: array<Cpu>)
      requires forall i | 0 <= i < cpus.Length :: cpus[i].place == Outside
      ensures this.cpus == cpus && Initial(View())
    {
      this.cpus := cpus;
      locked, rflags := false, 0;
    }

    /** `__atomic_test_and_set(&lock->locked)` */
    method TestAndSet() returns (was: bool)
      modifies this`locked
      ensures was == old(locked) && locked
    {
      was := locked;
      locked := true;
    }

    method AcquireStep(i: nat)
      requires i < cpus.Length
      modifies this, cpus
      ensures View() == Next(old(View()), Acquire(i))
    {
      var c := cpus[i];
      match c.place {
        case Outside =>
          cpus[i] := Cpu(Spinning, Cli(c.flags), c.flags, c.flags);
        case Spinning =>
          var was := TestAndSet();
          cpus[i] := c.(place := if was then Spinning else Won);
        case Won =>
          rflags := c.saved;
          cpus[i] := c.(place := Holding);
        case _ =>
      }
    }

    method ReleaseStep(i: nat)
      requires i < cpus.Length
      modifies this, cpus
      ensures View() == Next(old(View()), Release(i))
    {
      var c := cpus[i];
      match c.place {
        case Holding =>
          cpus[i] := c.(place := FlagsRead, saved := rflags);
        case FlagsRead =>
          locked := false;
          cpus[i] := c.(place := Cleared);
        case Cleared =>
          cpus[i] := c.(place := Outside, flags := c.saved);
        case _ =>
      }
    }

    method OtherStep(i: nat, flags: Word)
      requires i < cpus.Length
      modifies cpus
      ensures View() == Next(old(View()), Other(i, flags))
    {
      var c := cpus[i];
      if c.place == Outside || !InterruptsOn(flags) {
        cpus[i] := c.(flags := flags);
      }
    }

    /** Any interleaving of any number of processors. */
    method Play(events: seq<Event>)
      requires forall e | e in events :: e.i < cpus.Length
      modifies this, cpus
      ensures View() == Run(old(View()), events)
    {
      hide Next;
      for k := 0 to |events|
        invariant Run(View(), events[k..]) == Run(old(View()), events)
      {
        assert events[k] in events;
        assert events[k..][0] == events[k] && events[k..][1..] == events[k + 1..];
        match events[k] {
          case Acquire(i) => AcquireStep(i);
          case Release(i) => ReleaseStep(i);
          case Other(i, flags) => OtherStep(i, flags);
        }
      }
    }
  }
}
