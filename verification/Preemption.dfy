/**
  Processor, run list and stacks together: threads run, interrupts arrive, threads are created.

  Every thread has its own stack, and code only writes outside the stacks of other threads.  The
  frames of suspended threads then stay intact, and the machine follows the steps of `Scheduling`:
  a thread that was interrupted comes back with the registers it had.
 */
module Preemption {
  import opened Bits
  import opened Context
  import opened Processors
  import opened RunList
  import opened Scheduling

  const STACK_SIZE: nat := 8192
  const STACK_WORDS: nat := 1024

  /** Where `kmalloc` may put a stack. */
  type StackBase = b: int | 0 < b < WORD_LIMIT - STACK_SIZE && b % 8 == 0 witness 8

  /** A stack: words lo up to hi of memory. */
  datatype Stack = Stack(lo: nat, hi: nat) {
    predicate Has(i: nat) {
      lo <= i < hi
    }
  }

  type Stacks = map<nat, Stack>

  /** Memory writes of code that is not modelled in detail: word number to value. */
  type Writes = map<nat, Word>

  // ---------- stacks and the frames on them ----------

  ghost predicate Apart(stacks: Stacks) {
    forall s, t, i: nat | s in stacks && t in stacks && s != t :: !(stacks[s].Has(i) && stacks[t].Has(i))
  }

  ghost predicate InMemory(stacks: Stacks, length: nat) {
    forall t | t in stacks :: 0 < stacks[t].lo <= stacks[t].hi <= length
  }

  /** A thread with this stack pointer can be interrupted: the frame fits on its stack. */
  predicate HasRoom(stack: Stack, rsp: Word) {
    stack.lo + FRAME_WORDS <= InterruptWord(rsp) <= stack.hi
  }

  /** The context is in a frame on the stack, and the thread will have room to be interrupted again. */
  ghost predicate Suspended(memory: seq<Word>, rsp: Word, stack: Stack, c: Context) {
    && rsp % 8 == 0 && 0 < stack.lo <= rsp / 8 && rsp / 8 + FRAME_WORDS <= stack.hi <= |memory|
    && FrameAt(memory, rsp / 8, c) && HasRoom(stack, c.rsp)
  }

  /** Thread i of the list is suspended: its saved context is in a frame on its stack. */
  ghost predicate Waiting(memory: seq<Word>, ids: seq<nat>, rsps: seq<Word>, stacks: Stacks, saved: map<nat, Context>, i: nat)
    requires i < |ids| == |rsps|
  {
    ids[i] in stacks && ids[i] in saved && Suspended(memory, rsps[i], stacks[ids[i]], saved[ids[i]])
  }

  /** All threads but the running one are suspended. */
  ghost predicate AllWaiting(memory: seq<Word>, ids: seq<nat>, rsps: seq<Word>, stacks: Stacks, saved: map<nat, Context>)
    requires |ids| == |rsps|
  {
    forall i | 1 <= i < |ids| :: Waiting(memory, ids, rsps, stacks, saved, i)
  }

  /** Words on the stacks of the threads other than t are the same. */
  ghost predicate OthersKept(memory: seq<Word>, memory': seq<Word>, stacks: Stacks, t: nat) {
    && |memory'| == |memory|
    && forall s, i: nat | s in stacks && s != t && stacks[s].Has(i) && i < |memory| :: memory'[i] == memory[i]
  }

  lemma WaitingKept(memory: seq<Word>, memory': seq<Word>, ids: seq<nat>, rsps: seq<Word>, stacks: Stacks, saved: map<nat, Context>)
    requires 0 < |ids| == |rsps| && Distinct(ids) && AllWaiting(memory, ids, rsps, stacks, saved)
    requires OthersKept(memory, memory', stacks, ids[0])
    ensures AllWaiting(memory', ids, rsps, stacks, saved)
  {
    forall i | 1 <= i < |ids|
      ensures Waiting(memory', ids, rsps, stacks, saved, i)
    {
      assert Waiting(memory, ids, rsps, stacks, saved, i) && ids[i] != ids[0];
      forall j | rsps[i] / 8 <= j < rsps[i] / 8 + FRAME_WORDS
        ensures memory'[j] == memory[j]
      {
        assert stacks[ids[i]].Has(j);
      }
      FrameKept(memory, memory', rsps[i] / 8, saved[ids[i]]);
    }
  }

  /** The running thread joins the others, and the second one runs. */
  lemma WaitingRotated(memory: seq<Word>, ids: seq<nat>, rsps: seq<Word>, stacks: Stacks, saved: map<nat, Context>, rsp: Word, c: Context)
    requires 1 < |ids| == |rsps| && Distinct(ids) && AllWaiting(memory, ids, rsps, stacks, saved)
    requires ids[0] in stacks && Suspended(memory, rsp, stacks[ids[0]], c)
    ensures AllWaiting(memory, ids[1..] + ids[..1], rsps[1..] + [rsp], stacks, saved[ids[0] := c] - {ids[1]})
  {
    var ids', rsps', saved' := ids[1..] + ids[..1], rsps[1..] + [rsp], saved[ids[0] := c] - {ids[1]};
    forall i | 1 <= i < |ids'|
      ensures Waiting(memory, ids', rsps', stacks, saved', i)
    {
      if i + 1 < |ids| {
        assert ids'[i] == ids[i + 1] && rsps'[i] == rsps[i + 1] && ids[i + 1] != ids[0] && ids[i + 1] != ids[1];
        assert Waiting(memory, ids, rsps, stacks, saved, i + 1);
      } else {
        assert ids'[i] == ids[0] && ids[0] != ids[1];
      }
    }
  }

  /** A new thread waits right after the running one. */
  lemma WaitingInserted(memory: seq<Word>, ids: seq<nat>, rsps: seq<Word>, stacks: Stacks, saved: map<nat, Context>,
                        id: nat, rsp: Word, stack: Stack, c: Context)
    requires 0 < |ids| == |rsps| && AllWaiting(memory, ids, rsps, stacks, saved) && id !in ids
    requires Suspended(memory, rsp, stack, c)
    ensures AllWaiting(memory, ids[..1] + [id] + ids[1..], rsps[..1] + [rsp] + rsps[1..], stacks[id := stack], saved[id := c])
  {
    var ids', rsps' := ids[..1] + [id] + ids[1..], rsps[..1] + [rsp] + rsps[1..];
    var stacks', saved' := stacks[id := stack], saved[id := c];
    forall i | 1 <= i < |ids'|
      ensures Waiting(memory, ids', rsps', stacks', saved', i)
    {
      if i > 1 {
        assert ids'[i] == ids[i - 1] && rsps'[i] == rsps[i - 1];
        assert Waiting(memory, ids, rsps, stacks, saved, i - 1);
      }
    }
  }

  lemma WaitingCreated(memory: seq<Word>, memory': seq<Word>, ids: seq<nat>, rsps: seq<Word>, stacks: Stacks,
                       saved: map<nat, Context>, id: nat, rsp: Word, stack: Stack, c: Context)
    requires 0 < |ids| == |rsps| && Distinct(ids) && AllWaiting(memory, ids, rsps, stacks, saved) && id !in ids
    requires OthersKept(memory, memory', stacks, ids[0]) && Suspended(memory', rsp, stack, c)
    ensures AllWaiting(memory', ids[..1] + [id] + ids[1..], rsps[..1] + [rsp] + rsps[1..], stacks[id := stack], saved[id := c])
  {
    WaitingKept(memory, memory', ids, rsps, stacks, saved);
    WaitingInserted(memory', ids, rsps, stacks, saved, id, rsp, stack, c);
  }

  /** Writes that spare the stacks of threads other than t, and t's own from word k on. */
  ghost predicate Spares(writes: Writes, stacks: Stacks, t: nat, k: nat) {
    forall i, s | i in writes && s in stacks && stacks[s].Has(i) :: s == t && i < k
  }

  ghost predicate Written(memory: seq<Word>, memory': seq<Word>, writes: Writes) {
    && |memory'| == |memory|
    && forall i | 0 <= i < |memory| :: memory'[i] == if i in writes then writes[i] else memory[i]
  }

  lemma WritesKeepOthers(memory: seq<Word>, memory': seq<Word>, writes: Writes, stacks: Stacks, t: nat, k: nat)
    requires Written(memory, memory', writes) && Spares(writes, stacks, t, k)
    ensures OthersKept(memory, memory', stacks, t)
  {
  }

  function NewStack(base: StackBase): Stack {
    Stack(base / 8, base / 8 + STACK_WORDS)
  }

  lemma NewStackKeepsOthers(memory: seq<Word>, memory': seq<Word>, stacks: Stacks, t: nat, base: StackBase)
    requires SameBut(memory, memory', base / 8, base / 8 + STACK_WORDS)
    requires forall s, i: nat | s in stacks && stacks[s].Has(i) :: !NewStack(base).Has(i)
    ensures OthersKept(memory, memory', stacks, t)
  {
    assert forall i: nat | !NewStack(base).Has(i) && i < |memory| :: memory'[i] == memory[i];
  }

  lemma CreateFacts(m: Model, entry: Word, top: Word, stacks: Stacks, stack: Stack, length: nat)
    requires Good(m) && Apart(stacks) && InMemory(stacks, length) && 0 < stack.lo <= stack.hi <= length
    requires forall t: nat :: t in stacks <==> t in m.ring
    requires forall t, i: nat | t in stacks && stacks[t].Has(i) :: !stack.Has(i)
    ensures |m.ring| !in m.ring && Good(Next(m, Create(entry, top)))
    ensures Next(m, Create(entry, top)) ==
            Model(m.ring[..1] + [|m.ring|] + m.ring[1..], m.ticks, m.running, m.saved[|m.ring| := NewContext(entry, top)])
    ensures var stacks' := stacks[|m.ring| := stack];
            && Apart(stacks') && InMemory(stacks', length)
            && forall t: nat :: t in stacks' <==> t in m.ring[..1] + [|m.ring|] + m.ring[1..]
    ensures forall i | 0 <= i < |m.ring| :: m.ring[i] < |m.ring|
  {
    NextIsGood(m, Create(entry, top));
    assert m.ring == m.ring[..1] + m.ring[1..];
    assert forall i | 0 <= i < |m.ring| :: m.ring[i] in m.ring;
  }

  /** The first trap frame lies below the return address, near the top of the stack. */
  lemma FramePlace(stackTop: Word)
    requires stackTop % 8 == 0 && stackTop > STACK_SIZE
    ensures var tf := And(stackTop - 8 - 8 * FRAME_WORDS, 0xFFFF_FFFF_FFFF_FFF0);
            tf % 8 == 0 && stackTop / 8 - 25 <= tf / 8 && tf / 8 + FRAME_WORDS <= stackTop / 8 - 1
  {
    hide And;
    var x := stackTop - 8 - 8 * FRAME_WORDS;
    MultiplesOf8(stackTop, 8 + 8 * FRAME_WORDS);
    Align16(x);
    WordBelow(x, x / 16 * 16);
  }

  lemma WordBelow(x: nat, tf: nat)
    requires x % 8 == 0 && tf % 16 == 0 && x - 16 < tf <= x
    ensures tf % 8 == 0 && x / 8 - 2 <= tf / 8 <= x / 8
  {
    var a, b := x / 8, tf / 16;
    assert x == 8 * a && tf == 16 * b;
    ModUnique(tf, 8, 2 * b, 0);
  }

  // ---------- runs ----------

  /** What happens on the machine, with everything that the events of `Scheduling` leave out. */
  datatype Action =
    | Runs(context: Context, writes: Writes)
    | Interrupted(number: Word, writes: Writes, clobbered: Registers)
    | Creates(entry: Word, threadExit: Word, stackBase: StackBase)

  function EventOf(a: Action): Event {
    match a
    case Runs(c, _) => Work(c)
    case Interrupted(number, _, _) => Irq(number)
    case Creates(entry, _, stackBase) => Create(entry, stackBase + STACK_SIZE)
  }

  function StacksAfter(m: Model, stacks: Stacks, a: Action): Stacks {
    if a.Creates? then stacks[|m.ring| := NewStack(a.stackBase)] else stacks
  }

  /** A block of memory for a new stack, apart from all others. */
  ghost predicate FreshStack(base: StackBase, stacks: Stacks, length: nat) {
    && base / 8 + STACK_WORDS <= length
    && forall t, i: nat | t in stacks && stacks[t].Has(i) :: !NewStack(base).Has(i)
  }

  lemma FreshFacts(base: StackBase, stacks: Stacks, length: nat)
    requires FreshStack(base, stacks, length)
    ensures base / 8 + STACK_WORDS <= length && base % 8 == 0
    ensures (base + STACK_SIZE) / 8 == base / 8 + STACK_WORDS && (base + STACK_SIZE) % 8 == 0
    ensures forall t, i: nat | t in stacks && stacks[t].Has(i) :: !NewStack(base).Has(i)
    ensures base + STACK_SIZE <= 8 * length && base / 8 > 0
  {
    MultiplesOf8(base, STACK_SIZE);
  }

  /** The running thread, or the handler on its stack, keeps to its own stack and to memory that is nobody's stack. */
  ghost predicate Allowed(m: Model, stacks: Stacks, length: nat, a: Action)
    requires |m.ring| > 0
  {
    match a
    case Runs(_, writes) => Spares(writes, stacks, m.ring[0], length)
    case Interrupted(_, writes, _) =>
      && m.ring[0] in stacks && HasRoom(stacks[m.ring[0]], m.running.rsp)
      && Spares(writes, stacks, m.ring[0], InterruptWord(m.running.rsp) - FRAME_WORDS)
    case Creates(_, _, base) => FreshStack(base, stacks, length)
  }

  /** Every action of the run is allowed when its turn comes. */
  ghost predicate AllAllowed(m: Model, stacks: Stacks, length: nat, actions: seq<Action>)
    requires Good(m)
    decreases |actions|
  {
    actions == [] ||
    (NextIsGood(m, EventOf(actions[0]));
     && Allowed(m, stacks, length, actions[0])
     && AllAllowed(Next(m, EventOf(actions[0])), StacksAfter(m, stacks, actions[0]), length, actions[1..]))
  }

  function Events(actions: seq<Action>): (events: seq<Event>)
    ensures |events| == |actions|
  {
    seq(|actions|, i requires 0 <= i < |actions| => EventOf(actions[i]))
  }

  lemma EventsStep(actions: seq<Action>)
    requires actions != []
    ensures Events(actions)[0] == EventOf(actions[0]) && Events(actions)[1..] == Events(actions[1..])
  {
  }

  function StacksAfterAll(m: Model, stacks: Stacks, actions: seq<Action>): Stacks
    requires Good(m)
    decreases |actions|
  {
    if actions == [] then stacks
    else
      NextIsGood(m, EventOf(actions[0]));
      StacksAfterAll(Next(m, EventOf(actions[0])), StacksAfter(m, stacks, actions[0]), actions[1..])
  }

  /** The second part of an allowed run is allowed after the first. */
  lemma {:induction false} AllowedSplit(m: Model, stacks: Stacks, length: nat, first: seq<Action>, second: seq<Action>)
    requires Good(m) && AllAllowed(m, stacks, length, first + second)
    ensures AllAllowed(m, stacks, length, first)
    ensures AllAllowed(Run(m, Events(first)), StacksAfterAll(m, stacks, first), length, second)
    decreases |first|
  {
    hide Allowed;
    hide Next;
    if first == [] {
      assert first + second == second;
    } else {
      var e := EventOf(first[0]);
      NextIsGood(m, e);
      EventsStep(first);
      assert (first + second)[0] == first[0] && (first + second)[1..] == first[1..] + second;
      AllowedSplit(Next(m, e), StacksAfter(m, stacks, first[0]), length, first[1..], second);
    }
  }

  /** The stack of a thread is the same, word for word. */
  ghost predicate StackKept(memory: seq<Word>, memory': seq<Word>, stack: Stack) {
    |memory'| == |memory| && forall i: nat | stack.Has(i) && i < |memory| :: memory'[i] == memory[i]
  }

  /** The stacks of all threads that were suspended and are not switched in during these events. */
  ghost predicate SuspendedKept(memory: seq<Word>, memory': seq<Word>, m: Model, events: seq<Event>, stacks: Stacks, stacks': Stacks)
    requires Good(m)
  {
    forall t | t in m.saved && t !in SwitchIns(m, events) ::
      t in stacks && t in stacks' && stacks'[t] == stacks[t] && StackKept(memory, memory', stacks[t])
  }

  lemma StartIsGood(c: Context)
    ensures Good(Model([0], 0, c, map[]))
  {
    var m := Model([0], 0, c, map[]);
    assert m.ring[0] == 0 && m.ring[1..] == [];
  }

  class Machine {
    const cpu: Processor
    const sched: Scheduler

    /** How many interrupts the controller has been told are done. */
    var acknowledged: nat

    ghost var stacks: Stacks
    ghost var saved: map<nat, Context>

    ghost predicate Valid()
      reads this, cpu, cpu.memory, sched, sched.threads
    {
      && cpu.memory.Length <= WORD_LIMIT / 8 - 8
      && sched.Valid() && Good(View())
      && (forall t: nat :: t in stacks <==> t in View().ring)
      && InMemory(stacks, cpu.memory.Length) && Apart(stacks)
      && AllWaiting(cpu.memory[..], Ids(sched.threads), Rsps(sched.threads), stacks, saved)
    }

    ghost function View(): Model
      reads this, cpu, sched
    {
      Model(Ids(sched.threads), sched.ticks, cpu.View(), saved)
    }

    /** The id of the running thread. */
    ghost function Me(): nat
      requires |sched.threads| > 0
      reads sched
    {
      sched.threads[0].id
    }

    /** The running thread's stack has room for an interrupt. */
    ghost predicate Room()
      requires |sched.threads| > 0
      reads this, cpu, sched
    {
      Me() in stacks && HasRoom(stacks[Me()], cpu.rsp)
    }

    /** The machine after `sched_init`. */
    constructor (memory: array<Word>, c: Context, stack: Stack)
      requires memory.Length <= WORD_LIMIT / 8 - 8 && 0 < stack.lo <= stack.hi <= memory.Length
      ensures Valid() && View() == Model([0], 0, c, map[])
      ensures stacks == map[0 := stack] && cpu.memory == memory
      ensures fresh(cpu) && fresh(sched) && fresh(sched.threads)
    {
      var cpu := new Processor(memory, c);
      var sched := new Scheduler();
      sched.InitMain();
      this.cpu, this.sched, acknowledged := cpu, sched, 0;
      stacks, saved := map[0 := stack], map[];
      new;
      assert View() == Model([0], 0, c, map[]);
      StartIsGood(c);
    }

    method Write(writes: Writes)
      modifies cpu.memory
      ensures Written(old(cpu.memory[..]), cpu.memory[..], writes)
    {
      forall i | 0 <= i < cpu.memory.Length && i in writes {
        cpu.memory[i] := writes[i];
      }
    }

    /** The running thread executes some instructions. */
    method Work(c: Context, writes: Writes)
      requires Valid() && |sched.threads| > 0 && Spares(writes, stacks, Me(), cpu.memory.Length)
      modifies cpu, cpu.memory
      ensures Valid() && View() == Next(old(View()), Event.Work(c))
      ensures OthersKept(old(cpu.memory[..]), cpu.memory[..], stacks, Me())
    {
      hide AllWaiting;
      hide OthersKept;
      hide Spares;
      hide Written;
      hide Apart;
      hide InMemory;
      hide Scheduler.Valid;
      hide Ids;
      hide Rsps;
      hide Distinct;
      IdFacts();
      ghost var memory := cpu.memory[..];
      Write(writes);
      cpu.regs, cpu.rip, cpu.cs, cpu.rflags, cpu.rsp, cpu.ss := c.regs, c.rip, c.cs, c.rflags, c.rsp, c.ss;
      WritesKeepOthers(memory, cpu.memory[..], writes, stacks, Me(), cpu.memory.Length);
      WaitingKept(memory, cpu.memory[..], Ids(sched.threads), Rsps(sched.threads), stacks, saved);
    }

    /** `thread_create`, with the block `kmalloc` returned for the new stack. */
    method CreateThread(entry: Word, threadExit: Word, stackBase: StackBase)
      requires Valid() && |sched.threads| > 0
      requires FreshStack(stackBase, stacks, cpu.memory.Length)
      modifies this, cpu`rflags, cpu.memory, sched, sched.threads
      ensures Valid() && View() == Next(old(View()), Create(entry, stackBase + STACK_SIZE))
      ensures stacks == old(stacks)[|old(View()).ring| := NewStack(stackBase)]
      ensures SameBut(old(cpu.memory[..]), cpu.memory[..], stackBase / 8, stackBase / 8 + STACK_WORDS)
      ensures OthersKept(old(cpu.memory[..]), cpu.memory[..], old(stacks), old(Me()))
      ensures forall i | 0 <= i < |sched.threads| :: sched.threads[i] in old(sched.threads) || fresh(sched.threads[i])
    {
      hide Good;
      hide AllWaiting;
      hide Suspended;
      hide Apart;
      hide OthersKept;
      hide InMemory;
      hide Next;
      hide SameBut;
      hide Cli;
      hide Sti;
      hide InterruptsOn;
      hide Distinct;
      hide Scheduler.Valid;
      hide Ids;
      hide Rsps;
      hide FreshStack;
      FreshFacts(stackBase, stacks, cpu.memory.Length);
      FlagsRestored(cpu.rflags);
      IdFacts();
      ghost var m, rsps, memory := View(), Rsps(sched.threads), cpu.memory[..];
      var rflags := cpu.rflags;
      cpu.rflags := Cli(cpu.rflags);
      var stackTop := stackBase + STACK_SIZE;
      var tf := WriteFrame(entry, threadExit, stackTop);
      NewStackKeepsOthers(memory, cpu.memory[..], stacks, m.ring[0], stackBase);
      CreateFacts(m, entry, stackTop, stacks, NewStack(stackBase), cpu.memory.Length);
      WaitingCreated(memory, cpu.memory[..], m.ring, rsps, stacks, saved, |m.ring|, tf, NewStack(stackBase), NewContext(entry, stackTop));
      stacks := stacks[|m.ring| := NewStack(stackBase)];
      saved := saved[|m.ring| := NewContext(entry, stackTop)];
      var thread := sched.Insert(tf);
      if InterruptsOn(rflags) {
        cpu.rflags := Sti(cpu.rflags);
      }
    }

    lemma IdFacts()
      requires Valid()
      ensures sched.nextId == |sched.threads| && |sched.threads| > 0 && Distinct(View().ring)
      ensures Good(View()) && Me() == View().ring[0] && Me() in stacks && (forall t: nat :: t in stacks <==> t in View().ring)
      ensures forall i | 0 <= i < |sched.threads| :: sched.threads[i].id < sched.nextId
    {
      assert forall i | 0 <= i < |sched.threads| :: View().ring[i] == sched.threads[i].id && View().ring[i] in View().ring;
    }

    /** The stack of a new thread: a return address at its top, and below that its first trap frame. */
    method WriteFrame(entry: Word, threadExit: Word, stackTop: Word) returns (tf: Word)
      requires stackTop % 8 == 0 && STACK_SIZE < stackTop <= 8 * cpu.memory.Length <= WORD_LIMIT - 64
      modifies cpu.memory
      ensures SameBut(old(cpu.memory[..]), cpu.memory[..], stackTop / 8 - STACK_WORDS, stackTop / 8)
      ensures Suspended(cpu.memory[..], tf, Stack(stackTop / 8 - STACK_WORDS, stackTop / 8), NewContext(entry, stackTop))
      ensures var k := tf / 8;
              && k + 22 <= cpu.memory.Length && (forall j | k <= j < k + 15 :: cpu.memory[j] == 0)
              && cpu.memory[k + 17] == entry && cpu.memory[k + 18] == 0x08 && cpu.memory[k + 19] == 0x202
              && cpu.memory[k + 20] == stackTop && cpu.memory[k + 21] == 0x10
    {
      hide And;
      ghost var memory := cpu.memory[..];
      cpu.memory[(stackTop - 8) / 8] := threadExit;
      FramePlace(stackTop);
      tf := And(stackTop - 8 - 8 * FRAME_WORDS, 0xFFFF_FFFF_FFFF_FFF0);
      ClearFrame(tf / 8);
      FillFrame(tf / 8, entry, stackTop);
    }

    /** `memset(frame, 0, sizeof(trapframe_t))` */
    method ClearFrame(k: nat)
      requires k + FRAME_WORDS <= cpu.memory.Length
      modifies cpu.memory
      ensures SameBut(old(cpu.memory[..]), cpu.memory[..], k, k + FRAME_WORDS)
      ensures forall j | k <= j < k + FRAME_WORDS :: cpu.memory[j] == 0
    {
      for i := 0 to FRAME_WORDS
        invariant forall j | 0 <= j < cpu.memory.Length ::
                    cpu.memory[j] == if k <= j < k + i then 0 else old(cpu.memory[j])
      {
        cpu.memory[k + i] := 0;
      }
    }

    method FillFrame(k: nat, entry: Word, stackTop: Word)
      requires k + FRAME_WORDS <= cpu.memory.Length
      requires forall j | k <= j < k + FRAME_WORDS :: cpu.memory[j] == 0
      modifies cpu.memory
      ensures SameBut(old(cpu.memory[..]), cpu.memory[..], k, k + FRAME_WORDS)
      ensures FrameAt(cpu.memory[..], k, NewContext(entry, stackTop))
      ensures forall j | k <= j < k + 15 :: cpu.memory[j] == 0
      ensures cpu.memory[k + 17] == entry && cpu.memory[k + 18] == 0x08 && cpu.memory[k + 19] == 0x202
      ensures cpu.memory[k + 20] == stackTop && cpu.memory[k + 21] == 0x10
    {
      cpu.memory[k + 17] := entry;
      cpu.memory[k + 18] := KERNEL_CODE;
      cpu.memory[k + 19] := INITIAL_FLAGS;
      cpu.memory[k + 20] := stackTop;
      cpu.memory[k + 21] := KERNEL_DATA;
    }

    // ---------- interrupts ----------

    /** `irq_handler`; what the timer and keyboard handlers do only shows in `writes`.  Spurious interrupts are not acknowledged. */
    method IrqHandler(number: Word, currentRsp: Word, writes: Writes) returns (newRsp: Word)
      requires sched.Valid()
      modifies this`acknowledged, sched, sched.threads, cpu.memory
      ensures acknowledged == old(acknowledged) + if ActualIrq(number) in {7, 15} then 0 else 1
      ensures sched.Valid() && Written(old(cpu.memory[..]), cpu.memory[..], writes)
      ensures IrqStep(number, old(Ids(sched.threads)), old(Rsps(sched.threads)), old(sched.ticks), currentRsp,
                      Ids(sched.threads), Rsps(sched.threads), sched.ticks, newRsp)
      ensures forall i | 0 <= i < |sched.threads| :: sched.threads[i] in old(sched.threads)
      ensures 32 <= number < 48 ==>
                && (acknowledged == old(acknowledged) <==> number == 39 || number == 47)
                && (if number == 32 then
                      TickStep(old(Ids(sched.threads)), old(Rsps(sched.threads)), old(sched.ticks), currentRsp,
                               Ids(sched.threads), Rsps(sched.threads), sched.ticks, newRsp)
                    else
                      && Ids(sched.threads) == old(Ids(sched.threads)) && Rsps(sched.threads) == old(Rsps(sched.threads))
                      && sched.ticks == old(sched.ticks) && newRsp == 0)
    {
      hide Written;
      var actual := ActualIrq(number);
      newRsp := 0;
      Write(writes);
      if actual == 7 || actual == 15 {
        return 0;
      }
      match actual {
        case 0 => newRsp := sched.Tick(currentRsp);
        case _ =>
      }
      acknowledged := acknowledged + 1;
    }

    /** The first half of `irq_common_stub`, up to the return of the handler, with rax its result. */
    method StubCall(number: Word, writes: Writes, clobbered: Registers, ghost k: nat)
      requires sched.Valid() && k + FRAME_WORDS == InterruptWord(cpu.rsp) <= cpu.memory.Length && k > 0
      requires forall i | i in writes :: !(k <= i < k + FRAME_WORDS)
      modifies this`acknowledged, cpu, cpu.memory, sched, sched.threads
      ensures acknowledged == old(acknowledged) + if ActualIrq(number) in {7, 15} then 0 else 1
      ensures sched.Valid() && cpu.rsp == 8 * k && FrameAt(cpu.memory[..], k, old(cpu.View()))
      ensures forall i | 0 <= i < cpu.memory.Length && i !in writes && !(k <= i < k + FRAME_WORDS) ::
                cpu.memory[i] == old(cpu.memory[i])
      ensures IrqStep(number, old(Ids(sched.threads)), old(Rsps(sched.threads)), old(sched.ticks), 8 * k,
                      Ids(sched.threads), Rsps(sched.threads), sched.ticks, cpu.regs.rax)
      ensures forall i | 0 <= i < |sched.threads| :: sched.threads[i] in old(sched.threads)
    {
      hide IrqStep;
      hide FrameAt;
      hide SameBut;
      hide Written;
      hide Scheduler.Valid;
      ghost var c, memory0 := cpu.View(), cpu.memory[..];
      cpu.SaveFrame(number, k);
      ghost var memory := cpu.memory[..];
      cpu.PrepareCall(k);
      var rax := IrqHandler(cpu.regs.rdi, cpu.regs.rsi, writes);
      HandlerMemory(memory0, memory, cpu.memory[..], writes, k, c);
      cpu.FinishCall(rax, clobbered);
    }

    /** `irq_common_stub`: after it, either nothing has happened to the thread, or another one runs in its place. */
    method Interrupt(number: Word, writes: Writes, clobbered: Registers)
      requires Valid() && |sched.threads| > 0 && Room()
      requires Spares(writes, stacks, Me(), InterruptWord(cpu.rsp) - FRAME_WORDS)
      modifies this`saved, this`acknowledged, cpu, cpu.memory, sched, sched.threads
      ensures acknowledged == old(acknowledged) + if ActualIrq(number) in {7, 15} then 0 else 1
      ensures Valid() && View() == Next(old(View()), Irq(number))
      ensures forall i | 0 <= i < cpu.memory.Length && i !in writes
                && !(InterruptWord(old(cpu.rsp)) - FRAME_WORDS <= i < InterruptWord(old(cpu.rsp))) ::
                cpu.memory[i] == old(cpu.memory[i])
      ensures OthersKept(old(cpu.memory[..]), cpu.memory[..], stacks, old(Me()))
      ensures |sched.threads| > 0 && Room() && forall i | 0 <= i < |sched.threads| :: sched.threads[i] in old(sched.threads)
    {
      hide Good;
      hide AllWaiting;
      hide Suspended;
      hide FrameAt;
      hide IrqStep;
      hide Apart;
      hide Spares;
      hide OthersKept;
      hide InMemory;
      hide Next;
      hide Scheduler.Valid;
      hide Ids;
      hide Rsps;
      hide Waiting;
      hide Distinct;
      ghost var k := InterruptWord(cpu.rsp) - FRAME_WORDS;
      ghost var m, rsps, memory := View(), Rsps(sched.threads), cpu.memory[..];
      RoomFacts(k);
      FrameSpared(writes, stacks, m.ring[0], k);
      StubCall(number, writes, clobbered, k);
      InterruptKeepsOthers(memory, cpu.memory[..], writes, stacks, m.ring[0], k);
      WaitingKept(memory, cpu.memory[..], m.ring, rsps, stacks, saved);
      AfterHandler(number, m, rsps, Ids(sched.threads), Rsps(sched.threads), sched.ticks, cpu.regs.rax,
                   cpu.memory[..], stacks, k);
      saved := Next(m, Irq(number)).saved;
      if cpu.regs.rax != 0 {
        cpu.rsp := cpu.regs.rax;
      }
      cpu.RestoreFrame(cpu.rsp / 8, Next(m, Irq(number)).running);
      IdFacts();
    }

    // ---------- runs ----------

    /** One action. */
    method Act(a: Action)
      requires Valid() && |sched.threads| > 0 && Allowed(View(), stacks, cpu.memory.Length, a)
      modifies this, cpu, cpu.memory, sched, sched.threads
      ensures Valid() && View() == Next(old(View()), EventOf(a)) && stacks == StacksAfter(old(View()), old(stacks), a)
      ensures OthersKept(old(cpu.memory[..]), cpu.memory[..], old(stacks), old(Me()))
      ensures a.Interrupted? && old(Me()) in old(stacks) ==>
                OwnKept(old(cpu.memory[..]), cpu.memory[..], old(stacks)[old(Me())], InterruptWord(old(cpu.rsp)))
      ensures forall i | 0 <= i < |sched.threads| :: sched.threads[i] in old(sched.threads) || fresh(sched.threads[i])
    {
      hide Valid;
      hide Next;
      hide OthersKept;
      hide Spares;
      hide OwnKept;
      ghost var memory, me, k := cpu.memory[..], Me(), InterruptWord(cpu.rsp);
      match a {
        case Runs(c, writes) => Work(c, writes);
        case Interrupted(number, writes, clobbered) =>
          Interrupt(number, writes, clobbered);
          SparesOwn(memory, cpu.memory[..], writes, stacks, me, k);
        case Creates(entry, threadExit, stackBase) => CreateThread(entry, threadExit, stackBase);
      }
    }

    /** Any run: the machine goes through the states of `Scheduling`, and suspended stacks are not touched. */
    method Play(actions: seq<Action>)
      requires Valid() && AllAllowed(View(), stacks, cpu.memory.Length, actions)
      modifies this, cpu, cpu.memory, sched, sched.threads
      ensures Valid() && View() == Run(old(View()), Events(actions))
      ensures stacks == StacksAfterAll(old(View()), old(stacks), actions)
      ensures SuspendedKept(old(cpu.memory[..]), cpu.memory[..], old(View()), Events(actions), old(stacks), stacks)
      ensures forall i | 0 <= i < |sched.threads| :: sched.threads[i] in old(sched.threads) || fresh(sched.threads[i])
      decreases |actions|
    {
      hide Next;
      hide OthersKept;
      hide Allowed;
      ghost var m, memory, stacks0 := View(), cpu.memory[..], stacks;
      if actions == [] {
        NobodyTouched(m, memory, stacks);
        return;
      }
      EventsStep(actions);
      NextIsGood(m, EventOf(actions[0]));
      Act(actions[0]);
      ghost var memory1, stacks1 := cpu.memory[..], stacks;
      Play(actions[1..]);
      SuspendedStep(memory, memory1, cpu.memory[..], m, actions, stacks0, stacks1, stacks);
    }

    /** From when thread t is suspended until it runs again; nobody touches its stack. */
    method PlayBack(between: seq<Action>, back: Action, ghost t: nat)
      requires Valid() && AllAllowed(View(), stacks, cpu.memory.Length, between + [back])
      requires t in View().saved && ComesBack(View(), t, Events(between), EventOf(back))
      modifies this, cpu, cpu.memory, sched, sched.threads
      ensures Valid() && Good(Run(old(View()), Events(between)))
      ensures View() == Next(Run(old(View()), Events(between)), EventOf(back))
      ensures t in old(stacks) && StackKept(old(cpu.memory[..]), cpu.memory[..], old(stacks)[t])
      ensures forall i | 0 <= i < |sched.threads| :: sched.threads[i] in old(sched.threads) || fresh(sched.threads[i])
    {
      hide Valid;
      hide Good;
      hide Next;
      hide Run;
      hide SwitchIns;
      hide OthersKept;
      hide Allowed;
      hide StackKept;
      ghost var memory0 := cpu.memory[..];
      IdFacts();
      AllowedSplit(View(), stacks, cpu.memory.Length, between, [back]);
      Play(between);
      IdFacts();
      ghost var m, memory1, stacks1 := View(), cpu.memory[..], stacks;
      AllowedFirst(m, stacks, cpu.memory.Length, back, []);
      Act(back);
      StackStays(memory0, memory1, cpu.memory[..], m, stacks1, t);
    }

    /** Preemption is invisible: a thread comes back with the registers it had, and its stack as it was. */
    method Preempt(out: Action, between: seq<Action>, back: Action)
      requires Valid() && AllAllowed(View(), stacks, cpu.memory.Length, [out] + (between + [back]))
      requires Switches(View(), EventOf(out)) && Good(Next(View(), EventOf(out)))
      requires ComesBack(Next(View(), EventOf(out)), View().ring[0], Events(between), EventOf(back))
      modifies this, cpu, cpu.memory, sched, sched.threads
      ensures Valid() && cpu.View() == old(cpu.View()) && View().ring[0] == old(View().ring[0])
      ensures cpu.regs == old(cpu.regs) && cpu.rip == old(cpu.rip) && cpu.cs == old(cpu.cs)
      ensures cpu.rflags == old(cpu.rflags) && cpu.rsp == old(cpu.rsp) && cpu.ss == old(cpu.ss)
      ensures old(View().ring[0]) in old(stacks)
      ensures var stack := old(stacks)[old(View().ring[0])];
              forall i: nat | stack.lo <= i < stack.hi && old(cpu.rsp) / 16 * 2 <= i < cpu.memory.Length ::
                cpu.memory[i] == old(cpu.memory[i])
      ensures forall i | 0 <= i < |sched.threads| :: sched.threads[i] in old(sched.threads) || fresh(sched.threads[i])
    {
      hide Valid;
      hide Good;
      hide Next;
      hide Run;
      hide SwitchIns;
      hide ComesBack;
      hide OthersKept;
      hide Allowed;
      hide OwnKept;
      hide StackKept;
      ghost var m, memory0, k := View(), cpu.memory[..], InterruptWord(cpu.rsp);
      IdFacts();
      AllowedFirst(m, stacks, cpu.memory.Length, out, between + [back]);
      Transparent(m, EventOf(out), Events(between), EventOf(back));
      Act(out);
      ghost var memory1, stack := cpu.memory[..], stacks[m.ring[0]];
      PlayBack(between, back, m.ring[0]);
      StackUntilThen(memory0, memory1, cpu.memory[..], stack, k);
      OwnKeptMeans(memory0, cpu.memory[..], stack, k);
    }

    /** A new thread first runs with zeroed registers, from its entry point, on its own stack. */
    method Start(entry: Word, threadExit: Word, stackBase: StackBase, between: seq<Action>, back: Action)
      requires Valid() && AllAllowed(View(), stacks, cpu.memory.Length, [Creates(entry, threadExit, stackBase)] + (between + [back]))
      requires Good(Next(View(), Create(entry, stackBase + STACK_SIZE)))
      requires ComesBack(Next(View(), Create(entry, stackBase + STACK_SIZE)), |View().ring|, Events(between), EventOf(back))
      modifies this, cpu, cpu.memory, sched, sched.threads
      ensures Valid() && cpu.rip == entry && cpu.regs == Registers(0, 0, 0, 0, 0, 0, 0, 0, 0, 0, 0, 0, 0, 0, 0)
      ensures cpu.cs == 0x08 && cpu.rflags == 0x202 && cpu.rsp == stackBase + 8192 && cpu.ss == 0x10
      ensures forall i | 0 <= i < |sched.threads| :: sched.threads[i] in old(sched.threads) || fresh(sched.threads[i])
    {
      hide Valid;
      hide Good;
      hide Next;
      hide Run;
      hide SwitchIns;
      hide ComesBack;
      hide OthersKept;
      hide Allowed;
      hide StackKept;
      ghost var m, create := View(), Creates(entry, threadExit, stackBase);
      IdFacts();
      AllowedFirst(m, stacks, cpu.memory.Length, create, between + [back]);
      FirstRun(m, entry, stackBase + STACK_SIZE, Events(between), EventOf(back));
      Act(Creates(entry, threadExit, stackBase));
      PlayBack(between, back, |m.ring|);
    }

    lemma RoomFacts(k: nat)
      requires Valid() && |sched.threads| > 0 && Room() && k == InterruptWord(cpu.rsp) - FRAME_WORDS
      ensures 0 < k && k + FRAME_WORDS <= cpu.memory.Length && Distinct(Ids(sched.threads))
      ensures Me() in stacks && 0 < stacks[Me()].lo <= k && k + FRAME_WORDS <= stacks[Me()].hi <= cpu.memory.Length
      ensures Apart(stacks) && Me() == View().ring[0] && HasRoom(stacks[Me()], cpu.rsp)
    {
    }
  }

  /** The words of a stack from k on are the same. */
  ghost predicate OwnKept(memory: seq<Word>, memory': seq<Word>, stack: Stack, k: nat) {
    |memory'| == |memory| && forall i: nat | stack.Has(i) && k <= i < |memory| :: memory'[i] == memory[i]
  }

  /** The interrupted thread's stack keeps everything above the frame. */
  lemma SparesOwn(memory: seq<Word>, memory': seq<Word>, writes: Writes, stacks: Stacks, t: nat, k: nat)
    requires k >= FRAME_WORDS && Spares(writes, stacks, t, k - FRAME_WORDS) && |memory'| == |memory|
    requires forall i | 0 <= i < |memory| && i !in writes && !(k - FRAME_WORDS <= i < k) :: memory'[i] == memory[i]
    ensures t in stacks ==> OwnKept(memory, memory', stacks[t], k)
  {
  }

  lemma AllowedFirst(m: Model, stacks: Stacks, length: nat, a: Action, rest: seq<Action>)
    requires Good(m) && AllAllowed(m, stacks, length, [a] + rest)
    ensures Allowed(m, stacks, length, a) && Good(Next(m, EventOf(a)))
    ensures AllAllowed(Next(m, EventOf(a)), StacksAfter(m, stacks, a), length, rest)
  {
    hide Allowed;
    hide Next;
    NextIsGood(m, EventOf(a));
    assert ([a] + rest)[0] == a && ([a] + rest)[1..] == rest;
  }

  /** One more step keeps the stack of a thread that is not running. */
  lemma StackStays(memory0: seq<Word>, memory1: seq<Word>, memory2: seq<Word>, m: Model, stacks: Stacks, t: nat)
    requires Good(m) && t in stacks && t != m.ring[0]
    requires StackKept(memory0, memory1, stacks[t]) && OthersKept(memory1, memory2, stacks, m.ring[0])
    ensures StackKept(memory0, memory2, stacks[t])
  {
  }

  lemma StackUntilThen(memory0: seq<Word>, memory1: seq<Word>, memory2: seq<Word>, stack: Stack, k: nat)
    requires OwnKept(memory0, memory1, stack, k) && StackKept(memory1, memory2, stack)
    ensures OwnKept(memory0, memory2, stack, k)
  {
  }

  lemma OwnKeptMeans(memory: seq<Word>, memory': seq<Word>, stack: Stack, k: nat)
    requires OwnKept(memory, memory', stack, k)
    ensures |memory'| == |memory|
    ensures forall i: nat | stack.lo <= i < stack.hi && k <= i < |memory| :: memory'[i] == memory[i]
  {
    assert forall i: nat :: stack.Has(i) <==> stack.lo <= i < stack.hi;
  }

  lemma NobodyTouched(m: Model, memory: seq<Word>, stacks: Stacks)
    requires Good(m) && forall t: nat :: t in stacks <==> t in m.ring
    ensures SuspendedKept(memory, memory, m, [], stacks, stacks)
  {
    forall t | t in m.saved
      ensures t in stacks
    {
      NotTheFirst(m, t);
    }
  }

  lemma SuspendedStep(memory0: seq<Word>, memory1: seq<Word>, memory2: seq<Word>, m: Model, actions: seq<Action>,
                      stacks0: Stacks, stacks1: Stacks, stacks2: Stacks)
    requires Good(m) && actions != [] && Good(Next(m, EventOf(actions[0])))
    requires forall t: nat :: t in stacks0 <==> t in m.ring
    requires OthersKept(memory0, memory1, stacks0, m.ring[0]) && stacks1 == StacksAfter(m, stacks0, actions[0])
    requires SuspendedKept(memory1, memory2, Next(m, EventOf(actions[0])), Events(actions[1..]), stacks1, stacks2)
    ensures |memory2| == |memory1| ==> SuspendedKept(memory0, memory2, m, Events(actions), stacks0, stacks2)
  {
    var e, rest := EventOf(actions[0]), Events(actions[1..]);
    EventsStep(actions);
    forall t | t in m.saved && t !in SwitchIns(m, Events(actions)) && |memory2| == |memory1|
      ensures t in stacks0 && t in stacks2 && stacks2[t] == stacks0[t] && StackKept(memory0, memory2, stacks0[t])
    {
      NotTheFirst(m, t);
      assert Switches(m, e) ==> SwitchIns(m, Events(actions))[0] == m.ring[1];
      NextKeepsSaved(m, e, t);
      assert t !in SwitchIns(Next(m, e), rest);
      assert StackKept(memory0, memory1, stacks0[t]);
    }
  }

  /** The frame is pushed, then the handler writes: the frame is still there, and the rest has only changed where it wrote. */
  lemma HandlerMemory(memory0: seq<Word>, memory1: seq<Word>, memory2: seq<Word>, writes: Writes, k: nat, c: Context)
    requires SameBut(memory0, memory1, k, k + FRAME_WORDS) && Written(memory1, memory2, writes)
    requires FrameAt(memory1, k, c) && forall i | i in writes :: !(k <= i < k + FRAME_WORDS)
    ensures FrameAt(memory2, k, c) && |memory2| == |memory0|
    ensures forall i | 0 <= i < |memory0| && i !in writes && !(k <= i < k + FRAME_WORDS) :: memory2[i] == memory0[i]
  {
    FrameKept(memory1, memory2, k, c);
  }

  lemma FrameSpared(writes: Writes, stacks: Stacks, t: nat, k: nat)
    requires t in stacks && stacks[t].lo <= k && k + FRAME_WORDS <= stacks[t].hi && Spares(writes, stacks, t, k)
    ensures forall i | i in writes :: !(k <= i < k + FRAME_WORDS)
  {
    assert forall i: nat | k <= i < k + FRAME_WORDS :: stacks[t].Has(i);
  }

  /** The frame pushed on the stack of t and the writes of the handler do not reach other stacks. */
  lemma InterruptKeepsOthers(memory: seq<Word>, memory': seq<Word>, writes: Writes, stacks: Stacks, t: nat, k: nat)
    requires t in stacks && stacks[t].lo <= k && k + FRAME_WORDS <= stacks[t].hi && Apart(stacks)
    requires Spares(writes, stacks, t, k) && |memory'| == |memory|
    requires forall i | 0 <= i < |memory| && i !in writes && !(k <= i < k + FRAME_WORDS) :: memory'[i] == memory[i]
    ensures OthersKept(memory, memory', stacks, t)
  {
    forall s, i: nat | s in stacks && s != t && stacks[s].Has(i) && i < |memory|
      ensures memory'[i] == memory[i]
    {
      assert !(stacks[s].Has(i) && stacks[t].Has(i));
    }
  }

  /** After the handler, the stack pointer to go on with points to the frame of the thread that runs next. */
  lemma AfterHandler(number: Word, m: Model, rsps: seq<Word>, ids': seq<nat>, rsps': seq<Word>, ticks': nat, rax: Word,
                     memory: seq<Word>, stacks: Stacks, k: nat)
    requires Good(m) && |rsps| == |m.ring| && 8 * k < WORD_LIMIT
    requires IrqStep(number, m.ring, rsps, m.ticks, 8 * k, ids', rsps', ticks', rax)
    requires AllWaiting(memory, m.ring, rsps, stacks, m.saved)
    requires m.ring[0] in stacks && 0 < stacks[m.ring[0]].lo <= k && k + FRAME_WORDS <= stacks[m.ring[0]].hi <= |memory|
    requires FrameAt(memory, k, m.running) && HasRoom(stacks[m.ring[0]], m.running.rsp)
    ensures var n := Next(m, Irq(number));
            && Good(n) && n == Model(ids', ticks', n.running, n.saved) && |rsps'| == |ids'|
            && (forall t: nat :: t in ids' <==> t in m.ring)
            && AllWaiting(memory, ids', rsps', stacks, n.saved)
            && n.ring[0] in stacks && HasRoom(stacks[n.ring[0]], n.running.rsp)
            && var rsp := if rax != 0 then rax else 8 * k;
               rsp % 8 == 0 && rsp / 8 + FRAME_WORDS <= |memory| && FrameAt(memory, rsp / 8, n.running)
  {
    hide FrameAt;
    NextIsGood(m, Irq(number));
    if Switches(m, Irq(number)) {
      assert Waiting(memory, m.ring, rsps, stacks, m.saved, 1);
      WaitingRotated(memory, m.ring, rsps, stacks, m.saved, 8 * k, m.running);
    }
  }

  ghost predicate IrqStep(number: Word, ids: seq<nat>, rsps: seq<Word>, ticks: nat, rsp: Word,
                          ids': seq<nat>, rsps': seq<Word>, ticks': nat, r: Word)
    requires |rsps| == |ids|
  {
    if ActualIrq(number) == 0 then TickStep(ids, rsps, ticks, rsp, ids', rsps', ticks', r)
    else ids' == ids && rsps' == rsps && ticks' == ticks && r == 0
  }
}
