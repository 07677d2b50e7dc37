/**
  One page-table entry: a 64-bit word with flag bits and a frame number.

  The format is 4-level paging of the Intel 64 architecture (section 4.5 of volume 3A of the
  Software Developer's Manual), with the flags mm/vmm.h names.
 */
module Pte {
  import opened Bits
  import opened Sizes

  const PTE_PRESENT: nat := 0x1
  const PTE_RW: nat := 0x2
  const PTE_USER: nat := 0x4
  const PTE_LARGE: nat := 0x80
  const PTE_NX: nat := 0x8000_0000_0000_0000

  /** Bits 51:12 hold the address of the frame. */
  const ADDRESS_MASK: nat := 0x000F_FFFF_FFFF_F000

  predicate Present(e: nat) { And(e, PTE_PRESENT) != 0 }

  predicate Writable(e: nat) { And(e, PTE_RW) != 0 }

  predicate User(e: nat) { And(e, PTE_USER) != 0 }

  predicate Large(e: nat) { And(e, PTE_LARGE) != 0 }

  predicate NoExecute(e: nat) { And(e, PTE_NX) != 0 }

  /** The flags by the number of their bit: 0, 1, 2, 7 and 63. */
  lemma FlagBits(e: nat)
    ensures Present(e) <==> e % 2 == 1
    ensures Writable(e) <==> e / 2 % 2 == 1
    ensures User(e) <==> e / 4 % 2 == 1
    ensures Large(e) <==> e / 128 % 2 == 1
    ensures NoExecute(e) <==> e / 0x8000_0000_0000_0000 % 2 == 1
  {
    FlagMasks(e);
  }

  function FrameOf(e: nat): nat { And(e, ADDRESS_MASK) / PAGE_SIZE }

  /** An entry that refers to a table grants writing and execution and is not a large page. */
  predicate TableEntry(e: nat) {
    Present(e) && Writable(e) && !NoExecute(e) && !Large(e)
  }

  /** Flags leave the address field alone. */
  predicate ValidFlags(flags: nat) {
    And(flags, ADDRESS_MASK) == 0 && flags < WORD_LIMIT
  }

  /** `paddr | flags` */
  function MakeEntry(frame: nat, flags: nat): nat {
    Or(frame * PAGE_SIZE, flags)
  }

  lemma FrameAddress(e: nat)
    ensures And(e, ADDRESS_MASK) == FrameOf(e) * PAGE_SIZE && FrameOf(e) < FRAME_LIMIT
  {
    AddressMasks(e);
    DivExact(e / PAGE_SIZE % FRAME_LIMIT);
  }

  lemma DivExact(frame: nat)
    ensures frame * PAGE_SIZE / PAGE_SIZE == frame
  {
  }

  lemma AddressOfFrame(frame: nat)
    requires frame < FRAME_LIMIT
    ensures And(frame * PAGE_SIZE, ADDRESS_MASK) == frame * PAGE_SIZE
  {
    var a := frame * PAGE_SIZE;
    DivExact(frame);
    SmallMod(frame, FRAME_LIMIT);
    AddressMasks(a);
  }

  /** The address of a frame has none of the flag bits. */
  lemma FlagsOfFrame(frame: nat)
    requires frame < FRAME_LIMIT
    ensures And(frame * PAGE_SIZE, PTE_PRESENT) == 0 && And(frame * PAGE_SIZE, PTE_RW) == 0
    ensures And(frame * PAGE_SIZE, PTE_USER) == 0 && And(frame * PAGE_SIZE, PTE_LARGE) == 0
    ensures And(frame * PAGE_SIZE, PTE_NX) == 0
  {
    AlignedLow(frame, PTE_PRESENT);
    AlignedLow(frame, PTE_RW);
    AlignedLow(frame, PTE_USER);
    AlignedLow(frame, PTE_LARGE);
    SmallHigh(frame * PAGE_SIZE);
  }

  /** An entry keeps the frame and every flag it was made from. */
  lemma EntryFields(frame: nat, flags: nat)
    requires frame < FRAME_LIMIT && ValidFlags(flags)
    ensures var e := MakeEntry(frame, flags);
            && e < WORD_LIMIT && FrameOf(e) == frame
            && Present(e) == Present(flags) && Writable(e) == Writable(flags) && User(e) == User(flags)
            && Large(e) == Large(flags) && NoExecute(e) == NoExecute(flags)
  {
    var a := frame * PAGE_SIZE;
    OrWord(a, flags);
    AddressOfFrame(frame);
    FlagsOfFrame(frame);
    AndOr(a, flags, ADDRESS_MASK);
    OrZero(a);
    MakeEntryFlag(frame, flags, PTE_PRESENT);
    MakeEntryFlag(frame, flags, PTE_RW);
    MakeEntryFlag(frame, flags, PTE_USER);
    MakeEntryFlag(frame, flags, PTE_LARGE);
    MakeEntryFlag(frame, flags, PTE_NX);
  }

  lemma MakeEntryFlag(frame: nat, flags: nat, m: nat)
    requires And(frame * PAGE_SIZE, m) == 0
    ensures And(MakeEntry(frame, flags), m) == And(flags, m)
  {
    AndOr(frame * PAGE_SIZE, flags, m);
    ZeroOr(And(flags, m));
  }

  /** `e |= flag` sets that flag and changes no other field. */
  lemma UpgradeFields(e: nat, flag: nat)
    requires e < WORD_LIMIT && (flag == PTE_RW || flag == PTE_USER)
    ensures var u := Or(e, flag);
            && u < WORD_LIMIT && FrameOf(u) == FrameOf(e)
            && Present(u) == Present(e) && Large(u) == Large(e) && NoExecute(u) == NoExecute(e)
            && Writable(u) == (Writable(e) || flag == PTE_RW) && User(u) == (User(e) || flag == PTE_USER)
  {
    OrWord(e, flag);
    SmallHigh(flag);
    OtherBit(e, flag, ADDRESS_MASK);
    OtherBit(e, flag, PTE_PRESENT);
    OtherBit(e, flag, PTE_LARGE);
    OtherBit(e, flag, PTE_NX);
    OtherBit(e, flag, if flag == PTE_RW then PTE_USER else PTE_RW);
    AndOr(e, flag, flag);
    OrIsZero(And(e, flag), And(flag, flag));
  }

  lemma OtherBit(e: nat, flag: nat, m: nat)
    requires And(flag, m) == 0
    ensures And(Or(e, flag), m) == And(e, m)
  {
    AndOr(e, flag, m);
    OrZero(And(e, m));
  }
}
