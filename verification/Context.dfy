/**
  What a thread sees of the processor, and the trap frame that holds it in memory
  (kernel/sched.c `trapframe_t`, arch/idt_asm.s `irq_common_stub`).
 */
module Context {
  import opened Bits

  /** The 15 general registers other than the stack pointer. */
  datatype Registers = Registers(
    rax: Word, rbx: Word, rcx: Word, rdx: Word, rsi: Word, rdi: Word, rbp: Word,
    r8: Word, r9: Word, r10: Word, r11: Word, r12: Word, r13: Word, r14: Word, r15: Word)

  datatype Context = Context(regs: Registers, rip: Word, cs: Word, rflags: Word, rsp: Word, ss: Word)

  const KERNEL_CODE: Word := 0x08
  const KERNEL_DATA: Word := 0x10

  /** Bit 1 is always set; bit 9 enables interrupts. */
  const INITIAL_FLAGS: Word := 0x202

  const ZEROED: Registers := Registers(0, 0, 0, 0, 0, 0, 0, 0, 0, 0, 0, 0, 0, 0, 0)

  /** What a new thread starts with. */
  function NewContext(entry: Word, stackTop: Word): Context {
    Context(ZEROED, entry, KERNEL_CODE, INITIAL_FLAGS, stackTop, KERNEL_DATA)
  }

  lemma NewContextIs(entry: Word, stackTop: Word)
    ensures var c := NewContext(entry, stackTop);
            && c.rip == entry && c.cs == 0x08 && c.rflags == 0x202 && c.rsp == stackTop && c.ss == 0x10
            && c.regs == Registers(0, 0, 0, 0, 0, 0, 0, 0, 0, 0, 0, 0, 0, 0, 0)
  {
  }

  // ---------- the trap frame ----------

  /** Words of a trap frame: 15 registers, interrupt number and error code, and the 5 words of the processor. */
  const FRAME_WORDS: nat := 22

  /** The frame from word k on holds context c.  Field order as in `trapframe_t`, whatever words 15 and 16 are. */
  ghost predicate FrameAt(memory: seq<Word>, k: nat, c: Context) {
    && k + FRAME_WORDS <= |memory|
    && RegistersAt(memory, k, c.regs)
    && ReturnAt(memory, k + 17, c)
  }

  ghost predicate RegistersAt(memory: seq<Word>, k: nat, r: Registers) {
    && k + 15 <= |memory|
    && memory[k] == r.r15 && memory[k + 1] == r.r14 && memory[k + 2] == r.r13 && memory[k + 3] == r.r12
    && memory[k + 4] == r.r11 && memory[k + 5] == r.r10 && memory[k + 6] == r.r9 && memory[k + 7] == r.r8
    && memory[k + 8] == r.rbp && memory[k + 9] == r.rdi && memory[k + 10] == r.rsi && memory[k + 11] == r.rdx
    && memory[k + 12] == r.rcx && memory[k + 13] == r.rbx && memory[k + 14] == r.rax
  }

  /** What `iretq` pops. */
  ghost predicate ReturnAt(memory: seq<Word>, k: nat, c: Context) {
    && k + 5 <= |memory|
    && memory[k] == c.rip && memory[k + 1] == c.cs && memory[k + 2] == c.rflags
    && memory[k + 3] == c.rsp && memory[k + 4] == c.ss
  }

  /** A frame stays if its words do. */
  lemma FrameKept(memory: seq<Word>, memory': seq<Word>, k: nat, c: Context)
    requires FrameAt(memory, k, c) && |memory'| == |memory|
    requires forall i | k <= i < k + FRAME_WORDS :: memory'[i] == memory[i]
    ensures FrameAt(memory', k, c)
  {
  }
}
