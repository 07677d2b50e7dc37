/**
  The main loop of kernel.c and the keyboard interrupt: check with interrupts off, and sleep
  with `sti; hlt` if there is nothing to do.  The ring is the one of `Keyboard`, by its contents.
 */
module MainLoop {
  import opened CStrings
  import opened Keyboard

  /** What the loop executes next. */
  datatype Place = Swap | Cli | Check | StiRead | Read | Process | StiSleep | Hlt | Asleep

  /** `shadow`: the instruction before was `sti`, whose effect is delayed by one instruction. */
  datatype State = State(place: Place, enabled: bool, shadow: bool, ring: seq<Byte>, device: seq<Byte>,
                         accepted: seq<Byte>, returned: seq<Byte>)

  /** The loop executes an instruction, a key is typed, or an interrupt is delivered if it can be. */
  datatype Event = Step | Key(c: Byte) | Interrupt

  const START: State := State(Swap, true, false, [], [], [], [])

  predicate Deliverable(s: State) {
    s.enabled && !s.shadow
  }

  /** One event; `delayed` says whether the processor delays `sti`. */
  function Next(s: State, e: Event, delayed: bool): State {
    match e
    case Key(c) => if c == NUL then s else s.(device := s.device + [c])
    case Interrupt => if Deliverable(s) then Handled(s) else s
    case Step => Stepped(s, delayed)
  }

  /** The handler drains the device into the ring; a sleeping processor goes on behind `hlt`. */
  function Handled(s: State): State {
    var kept := if |s.ring| < KB_BUFFER_SIZE then Kept(|s.ring|, s.device) else [];
    s.(ring := s.ring + kept, accepted := s.accepted + kept, device := [],
       place := if s.place == Asleep then Swap else s.place)
  }

  function Stepped(s: State, delayed: bool): State {
    match s.place
    case Swap => s.(place := Cli, shadow := false)
    case Cli => s.(place := Check, enabled := false, shadow := false)
    case Check => s.(place := if s.ring != [] then StiRead else StiSleep)
    case StiRead => s.(place := Read, enabled := true, shadow := delayed)
    case Read =>
      if s.ring == [] then s.(place := Process, shadow := false)
      else s.(place := Process, shadow := false, returned := s.returned + [s.ring[0]], ring := s.ring[1..])
    case Process => s.(place := Swap)
    case StiSleep => s.(place := Hlt, enabled := true, shadow := delayed)
    case Hlt => s.(place := Asleep, shadow := false)
    case Asleep => s
  }

  function Run(s: State, events: seq<Event>, delayed: bool): State
    decreases |events|
  {
    if events == [] then s else Run(Next(s, events[0], delayed), events[1..], delayed)
  }

  // ---------- what every run keeps ----------

  ghost predicate Good(s: State) {
    && s.accepted == s.returned + s.ring && |s.ring| < KB_BUFFER_SIZE
    && (s.enabled <==> s.place !in {Check, StiRead, StiSleep})
    && (s.shadow ==> s.place in {Read, Hlt})
    && (s.place in {StiRead, Read} ==> s.ring != [])
    && (s.place in {StiSleep, Hlt, Asleep} ==> s.ring == [])
    && (s.place == Hlt ==> s.shadow)
  }

  lemma NextIsGood(s: State, e: Event)
    requires Good(s)
    ensures Good(Next(s, e, true))
  {
    if s.place == Read && e == Step {
      assert s.ring == [s.ring[0]] + s.ring[1..];
    }
  }

  lemma {:induction false} RunIsGood(s: State, events: seq<Event>)
    requires Good(s)
    ensures Good(Run(s, events, true))
    decreases |events|
  {
    if events != [] {
      NextIsGood(s, events[0]);
      RunIsGood(Next(s, events[0], true), events[1..]);
    }
  }

  /** Asleep although a character is waiting. */
  predicate LostWakeup(s: State) {
    s.place == Asleep && s.ring != []
  }

  /** In this run, from the start, a wakeup is lost. */
  predicate Loses(events: seq<Event>, delayed: bool) {
    LostWakeup(Run(START, events, delayed))
  }

  /** Wakeups are not lost exactly because `sti` is delayed. */
  lemma NoLostWakeup(delayed: bool)
    ensures delayed <==> forall events :: !Loses(events, delayed)
  {
    if delayed {
      forall events
        ensures !Loses(events, delayed)
      {
        RunIsGood(START, events);
      }
    } else {
      UnlessDelayed();
      assert Loses(SLEPT_OVER, delayed);
    }
  }

  const SLEPT_OVER: seq<Event> := [Step, Step, Step, Step, Key(97), Interrupt, Step]

  /** A key that arrives between `sti` and `hlt` would be slept over. */
  lemma UnlessDelayed()
    ensures LostWakeup(Run(START, SLEPT_OVER, false))
  {
    var s4 := State(Hlt, true, false, [], [], [], []);
    assert Next(Next(Next(Next(START, Step, false), Step, false), Step, false), Step, false) == s4;
    var s5 := s4.(device := [97]);
    assert Next(s4, Key(97), false) == s5;
    var s6 := s4.(ring := [97], accepted := [97]);
    assert Next(s5, Interrupt, false) == s6;
    assert Run(s6, [Step], false) == Next(s6, Step, false);
    assert Run(s5, [Interrupt, Step], false) == Run(s6, [Step], false);
    assert Run(s4, [Key(97), Interrupt, Step], false) == Run(s5, [Interrupt, Step], false);
  }

  /** Asleep, an interrupt is always delivered, and wakes the loop with what was typed in the ring. */
  lemma Wakes(events: seq<Event>)
    ensures var s := Run(START, events, true);
            s.place == Asleep ==>
              && Next(s, Interrupt, true).place == Swap
              && Next(s, Interrupt, true).ring == if |s.device| <= 255 then s.device else s.device[..255]
  {
    RunIsGood(START, events);
  }

  /** Characters come out in the order in which they were accepted, none twice and none left out. */
  lemma InOrder(events: seq<Event>)
    ensures var s := Run(START, events, true);
            s.returned <= s.accepted && s.accepted[|s.returned|..] == s.ring && |s.ring| < KB_BUFFER_SIZE
  {
    RunIsGood(START, events);
  }

  // ---------- progress ----------

  function Steps(events: seq<Event>): nat {
    if events == [] then 0 else (if events[0] == Step then 1 else 0) + Steps(events[1..])
  }

  /** Instructions until a character has been read, if there is one. */
  function Distance(p: Place): nat {
    match p
    case Read => 1
    case StiRead => 2
    case Check => 3
    case Cli => 4
    case Swap => 5
    case _ => 6
  }

  /** A waiting character is read within 6 instructions of the loop, however many interrupts come between. */
  lemma {:induction false} SoonRead(s: State, events: seq<Event>)
    requires Good(s) && s.ring != [] && Steps(events) >= Distance(s.place)
    ensures s.returned + [s.ring[0]] <= Run(s, events, true).returned
    decreases |events|
  {
    var e := events[0];
    var n := Next(s, e, true);
    NextIsGood(s, e);
    if e == Step && s.place == Read {
      ReturnedGrows(n, events[1..]);
    } else {
      assert n.ring[0] == s.ring[0] && n.returned == s.returned;
      SoonRead(n, events[1..]);
    }
  }

  /** A key typed while nothing is pending is the next character returned, within 6 instructions after its interrupt. */
  lemma KeyIsReturned(s: State, c: Byte, events: seq<Event>)
    requires Good(s) && Deliverable(s) && s.ring == [] && s.device == [] && c != NUL && Steps(events) >= 6
    ensures s.returned + [c] <= Run(s, [Key(c), Interrupt] + events, true).returned
  {
    var s1 := Next(s, Key(c), true);
    var s2 := Next(s1, Interrupt, true);
    NextIsGood(s, Key(c));
    NextIsGood(s1, Interrupt);
    assert ([Key(c), Interrupt] + events)[1..] == [Interrupt] + events && ([Interrupt] + events)[1..] == events;
    assert s2.ring == [c] && s2.returned == s.returned;
    SoonRead(s2, events);
  }

  lemma {:induction false} ReturnedGrows(s: State, events: seq<Event>)
    ensures s.returned <= Run(s, events, true).returned
    decreases |events|
  {
    if events != [] {
      ReturnedGrows(Next(s, events[0], true), events[1..]);
    }
  }

  // ---------- the loop itself ----------

  /** The main loop on the ring of `Keyboard`, one instruction or interrupt at a time. */
  class Kernel {
    const ring: Ring
    const delayed: bool

    var place: Place
    var enabled: bool
    var shadow: bool

    /** What the keyboard controller holds. */
    var device: seq<Byte>

    ghost var returned: seq<Byte>

    ghost predicate Valid()
      reads this, ring, ring.buffer
    {
      ring.Valid() && NUL !in device && ring.taken <= |ring.accepted| && returned == ring.accepted[..ring.taken]
    }

    ghost function View(): State
      requires ring.taken <= |ring.accepted|
      reads this, ring
    {
      State(place, enabled, shadow, ring.accepted[ring.taken..], device, ring.accepted, returned)
    }

    constructor (delayed: bool)
      ensures Valid() && View() == START && this.delayed == delayed && fresh(ring) && fresh(ring.buffer)
    {
      ring := new Ring();
      this.delayed := delayed;
      place, enabled, shadow, device, returned := Swap, true, false, [], [];
    }

    /** The next instruction of the loop. */
    method Execute()
      requires Valid()
      modifies this, ring, ring.buffer
      ensures Valid() && View() == Next(old(View()), Step, delayed)
    {
      hide Ring.Valid;
      match place {
        case Swap =>
          place, shadow := Cli, false;
        case Cli =>
          place, enabled, shadow := Check, false, false;
        case Check =>
          var has := ring.HasChar();
          place := if has then StiRead else StiSleep;
        case StiRead =>
          place, enabled, shadow := Read, true, delayed;
        case Read =>
          var c := ring.GetChar([[], [], [], [], [], [], []]);
          returned := if c == NUL then returned else returned + [c];
          place, shadow := Process, false;
        case Process =>
          place := Swap;
        case StiSleep =>
          place, enabled, shadow := Hlt, true, delayed;
        case Hlt =>
          place, shadow := Asleep, false;
        case Asleep =>
      }
    }

    /** A key is typed. */
    method Type(c: Byte)
      requires Valid()
      modifies this
      ensures Valid() && View() == Next(old(View()), Key(c), delayed)
    {
      if c != NUL {
        device := device + [c];
      }
    }

    /** An interrupt is raised: the handler runs if it may. */
    method Raise()
      requires Valid()
      modifies this, ring, ring.buffer
      ensures Valid() && View() == Next(old(View()), Event.Interrupt, delayed)
    {
      if enabled && !shadow {
        ring.Empty();
        ring.Interrupt(device);
        ring.Empty();
        device := [];
        place := if place == Asleep then Swap else place;
      }
    }

    /** Any interleaving: the loop goes through the states of `Run`. */
    method Play(events: seq<Event>)
      requires Valid()
      modifies this, ring, ring.buffer
      ensures Valid() && View() == Run(old(View()), events, delayed)
    {
      for i := 0 to |events|
        invariant Valid() && Run(View(), events[i..], delayed) == Run(old(View()), events, delayed)
      {
        assert events[i..][0] == events[i] && events[i..][1..] == events[i + 1..];
        match events[i] {
          case Step => Execute();
          case Key(c) => Type(c);
          case Interrupt => Raise();
        }
      }
    }
  }
}
