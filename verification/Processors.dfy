/**
  The processor as the interrupt path uses it: registers, stack, interrupt delivery and `iretq`
  in 64-bit mode (Intel SDM, Volume 3A, section 6.14), and the stub of arch/idt_asm.s around it.

  Addresses are in bytes, memory is in words; the ghost parameter k is the word the stack pointer
  points to.
 */
module Processors {
  import opened Bits
  import opened Context

  predicate InterruptsOn(flags: Word) {
    flags / 0x200 % 2 == 1
  }

  /** Bit 9; a new thread starts with interrupts on. */
  lemma InterruptFlag(flags: Word)
    ensures InterruptsOn(flags) <==> flags / 512 % 2 == 1
    ensures InterruptsOn(0x202) && !InterruptsOn(0x002)
  {
  }

  function Cli(flags: Word): Word {
    if InterruptsOn(flags) then flags - 0x200 else flags
  }

  function Sti(flags: Word): Word {
    FlagAdds(flags);
    if InterruptsOn(flags) then flags else flags + 0x200
  }

  lemma FlagAdds(flags: Word)
    ensures !InterruptsOn(flags) ==> flags + 0x200 < WORD_LIMIT
  {
  }

  /** `pushfq; cli` and, if interrupts were on, `sti` */
  lemma FlagsRestored(flags: Word)
    ensures (if InterruptsOn(flags) then Sti(Cli(flags)) else Cli(flags)) == flags
    ensures !InterruptsOn(Cli(flags))
  {
  }

  lemma StackAligned(rsp: Word)
    ensures And(rsp, 0xFFFF_FFFF_FFFF_FFF0) % 16 == 0 && And(rsp, 0xFFFF_FFFF_FFFF_FFF0) <= rsp
  {
    hide And;
    Align16(rsp);
  }

  /** The word below which the processor pushes when it is interrupted with this stack pointer. */
  function InterruptWord(rsp: Word): nat {
    rsp / 16 * 2
  }

  /** Memory differs at most in words lo up to hi. */
  ghost predicate SameBut(memory: seq<Word>, memory': seq<Word>, lo: nat, hi: nat) {
    |memory'| == |memory| && forall i | 0 <= i < |memory| && !(lo <= i < hi) :: memory'[i] == memory[i]
  }

  class Processor {
    const memory: array<Word>

    var regs: Registers
    var rip: Word
    var cs: Word
    var rflags: Word
    var rsp: Word
    var ss: Word

    constructor (memory: array<Word>, c: Context)
      ensures this.memory == memory && View() == c
    {
      this.memory := memory;
      regs, rip, cs, rflags, rsp, ss := c.regs, c.rip, c.cs, c.rflags, c.rsp, c.ss;
    }

    ghost function View(): Context
      reads this
    {
      Context(regs, rip, cs, rflags, rsp, ss)
    }

    method Push(value: Word, ghost k: nat)
      requires 0 < k <= memory.Length && rsp == 8 * k
      modifies this`rsp, memory
      ensures rsp == 8 * (k - 1) && memory[..] == old(memory[..])[k - 1 := value]
    {
      rsp := rsp - 8;
      memory[rsp / 8] := value;
    }

    method Pop(ghost k: nat) returns (value: Word)
      requires k < memory.Length && rsp == 8 * k && 8 * k + 8 < WORD_LIMIT
      modifies this`rsp
      ensures rsp == 8 * (k + 1) && value == memory[k]
    {
      value := memory[rsp / 8];
      rsp := rsp + 8;
    }

    /** `pushq %rax` to `pushq %r15` */
    method PushRegisters(ghost k: nat)
      requires 15 <= k <= memory.Length && rsp == 8 * k
      modifies this`rsp, memory
      ensures rsp == 8 * (k - 15)
      ensures RegistersAt(memory[..], k - 15, regs) && SameBut(old(memory[..]), memory[..], k - 15, k)
    {
      PushLegacy(k);
      PushExtended(k - 7);
    }

    method PushLegacy(ghost k: nat)
      requires 15 <= k <= memory.Length && rsp == 8 * k
      modifies this`rsp, memory
      ensures rsp == 8 * (k - 7) && SameBut(old(memory[..]), memory[..], k - 7, k)
      ensures memory[k - 1] == regs.rax && memory[k - 2] == regs.rbx && memory[k - 3] == regs.rcx
      ensures memory[k - 4] == regs.rdx && memory[k - 5] == regs.rsi && memory[k - 6] == regs.rdi
      ensures memory[k - 7] == regs.rbp
    {
      Push(regs.rax, k);
      Push(regs.rbx, k - 1);
      Push(regs.rcx, k - 2);
      Push(regs.rdx, k - 3);
      Push(regs.rsi, k - 4);
      Push(regs.rdi, k - 5);
      Push(regs.rbp, k - 6);
    }

    method PushExtended(ghost k: nat)
      requires 8 <= k <= memory.Length && rsp == 8 * k
      modifies this`rsp, memory
      ensures rsp == 8 * (k - 8) && SameBut(old(memory[..]), memory[..], k - 8, k)
      ensures memory[k - 1] == regs.r8 && memory[k - 2] == regs.r9 && memory[k - 3] == regs.r10
      ensures memory[k - 4] == regs.r11 && memory[k - 5] == regs.r12 && memory[k - 6] == regs.r13
      ensures memory[k - 7] == regs.r14 && memory[k - 8] == regs.r15
    {
      Push(regs.r8, k);
      Push(regs.r9, k - 1);
      Push(regs.r10, k - 2);
      Push(regs.r11, k - 3);
      Push(regs.r12, k - 4);
      Push(regs.r13, k - 5);
      Push(regs.r14, k - 6);
      Push(regs.r15, k - 7);
    }

    /** `popq %r15` to `popq %rax` */
    method PopRegisters(ghost k: nat, ghost saved: Registers)
      requires RegistersAt(memory[..], k, saved) && rsp == 8 * k && 8 * k + 120 < WORD_LIMIT
      modifies this`rsp, this`regs
      ensures rsp == 8 * (k + 15) && regs == saved
    {
      var r15 := Pop(k);
      var r14 := Pop(k + 1);
      var r13 := Pop(k + 2);
      var r12 := Pop(k + 3);
      var r11 := Pop(k + 4);
      var r10 := Pop(k + 5);
      var r9 := Pop(k + 6);
      var r8 := Pop(k + 7);
      var rbp := Pop(k + 8);
      var rdi := Pop(k + 9);
      var rsi := Pop(k + 10);
      var rdx := Pop(k + 11);
      var rcx := Pop(k + 12);
      var rbx := Pop(k + 13);
      var rax := Pop(k + 14);
      regs := Registers(rax, rbx, rcx, rdx, rsi, rdi, rbp, r8, r9, r10, r11, r12, r13, r14, r15);
    }

    /** Interrupt delivery: the stack is aligned to 16 bytes, five words are pushed, interrupts go off. */
    method Deliver(ghost k: nat)
      requires k == InterruptWord(rsp) && 5 <= k <= memory.Length
      modifies this`rsp, this`rflags, memory
      ensures rsp == 8 * (k - 5) && rflags == Cli(old(rflags))
      ensures ReturnAt(memory[..], k - 5, old(View())) && SameBut(old(memory[..]), memory[..], k - 5, k)
    {
      Align16(rsp);
      var interrupted := rsp;
      rsp := And(rsp, 0xFFFF_FFFF_FFFF_FFF0);
      Push(ss, k);
      Push(interrupted, k - 1);
      Push(rflags, k - 2);
      Push(cs, k - 3);
      Push(rip, k - 4);
      rflags := Cli(rflags);
    }

    method Iretq(ghost k: nat, ghost c: Context)
      requires ReturnAt(memory[..], k, c) && rsp == 8 * k && 8 * k + 40 < WORD_LIMIT
      modifies this`rip, this`cs, this`rflags, this`rsp, this`ss
      ensures View() == c.(regs := old(regs))
    {
      var rip' := Pop(k);
      var cs' := Pop(k + 1);
      var rflags' := Pop(k + 2);
      var rsp' := Pop(k + 3);
      var ss' := Pop(k + 4);
      rip, cs, rflags, rsp, ss := rip', cs', rflags', rsp', ss';
    }

    /** From the interrupt up to the call: the complete trap frame is on the interrupted stack. */
    method SaveFrame(number: Word, ghost k: nat)
      requires k + FRAME_WORDS == InterruptWord(rsp) <= memory.Length
      modifies this, memory
      ensures FrameAt(memory[..], k, old(View())) && memory[k + 15] == number && memory[k + 16] == 0
      ensures memory[k] == old(regs.r15) && memory[k + 1] == old(regs.r14) && memory[k + 2] == old(regs.r13)
      ensures memory[k + 3] == old(regs.r12) && memory[k + 4] == old(regs.r11) && memory[k + 5] == old(regs.r10)
      ensures memory[k + 6] == old(regs.r9) && memory[k + 7] == old(regs.r8) && memory[k + 8] == old(regs.rbp)
      ensures memory[k + 9] == old(regs.rdi) && memory[k + 10] == old(regs.rsi) && memory[k + 11] == old(regs.rdx)
      ensures memory[k + 12] == old(regs.rcx) && memory[k + 13] == old(regs.rbx) && memory[k + 14] == old(regs.rax)
      ensures memory[k + 17] == old(rip) && memory[k + 18] == old(cs) && memory[k + 19] == old(rflags)
      ensures memory[k + 20] == old(rsp) && memory[k + 21] == old(ss)
      ensures rsp == 8 * k && SameBut(old(memory[..]), memory[..], k, k + FRAME_WORDS)
    {
      Deliver(k + 22);
      Push(0, k + 17);
      Push(number, k + 16);
      PushRegisters(k + 15);
    }

    /** The arguments of the handler, the copy of the stack pointer, and the alignment of the stack. */
    method PrepareCall(ghost k: nat)
      requires k + FRAME_WORDS <= memory.Length && rsp == 8 * k
      modifies this`regs, this`rsp
      ensures regs.rdi == memory[k + 15] && regs.rsi == 8 * k && regs.rbp == 8 * k && rsp % 16 == 0
    {
      hide And;
      assert (rsp + 120) / 8 == k + 15;
      regs := regs.(rdi := memory[(rsp + 120) / 8], rsi := rsp);
      regs := regs.(rbp := rsp);
      StackAligned(rsp);
      rsp := And(rsp, 0xFFFF_FFFF_FFFF_FFF0);
    }

    /** A C function returns: its result is in rax, it has kept rbx, rbp and r12 to r15, and the stack pointer is put back. */
    method FinishCall(result: Word, clobbered: Registers)
      modifies this`regs, this`rsp
      ensures regs.rax == result && rsp == old(regs.rbp)
    {
      regs := clobbered.(rax := result, rbx := regs.rbx, rbp := regs.rbp, r12 := regs.r12,
                         r13 := regs.r13, r14 := regs.r14, r15 := regs.r15);
      rsp := regs.rbp;
    }

    /** From the switched or kept stack pointer to the end: exactly the saved context is back. */
    method RestoreFrame(ghost k: nat, ghost c: Context)
      requires FrameAt(memory[..], k, c) && rsp == 8 * k && 8 * (k + FRAME_WORDS) < WORD_LIMIT
      modifies this
      ensures View() == c
    {
      PopRegisters(k, c.regs);
      rsp := rsp + 16;
      Iretq(k + 17, c);
    }
  }
}
