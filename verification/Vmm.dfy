/**
  The virtual memory manager of mm/vmm.c: page tables edited in place in physical memory, with
  table frames taken from the physical memory manager.

  A panic ends the kernel; here it is an outcome, and the contracts say what holds when it is
  reached.
 */
module Vmm {
  import opened Bits
  import opened Sizes
  import opened Pte
  import opened PageTables
  import P = Pmm

  const LARGE_ADDRESS_MASK: nat := 0x000F_FFFF_FFE0_0000

  datatype Outcome = Done | OutOfMemory | DoubleMapping

  /** `memset(table, 0, 4096)` */
  method ZeroFrame(memory: array<Word>, f: nat)
    requires Slot(f, ENTRIES) <= memory.Length
    modifies memory
    ensures forall w | 0 <= w < memory.Length ::
              memory[w] == if w / ENTRIES == f then 0 else old(memory[w])
  {
    for i := 0 to ENTRIES
      invariant forall w | 0 <= w < memory.Length ::
                  memory[w] == if f * ENTRIES <= w < f * ENTRIES + i then 0 else old(memory[w])
    {
      memory[f * ENTRIES + i] := 0;
    }
  }

  /** Memory outside the given frames is the same. */
  ghost predicate Untouched(mem: Memory, mem': Memory, tableFrames: set<nat>) {
    |mem'| == |mem| && forall w | 0 <= w < |mem| && w / ENTRIES !in tableFrames :: mem'[w] == mem[w]
  }

  /** Frames move from free to table and no other way.  (Frame 0 would be lost: its address means "none".) */
  ghost predicate Taken(free: set<nat>, tableFrames: set<nat>, free': set<nat>, tableFrames': set<nat>) {
    free' <= free && tableFrames <= tableFrames' <= tableFrames + free && free - free' <= tableFrames' + {0}
  }

  lemma UntouchedTransitive(mem: Memory, mem1: Memory, frames1: set<nat>, mem2: Memory, frames2: set<nat>)
    requires Untouched(mem, mem1, frames1) && Untouched(mem1, mem2, frames2) && frames1 <= frames2
    ensures Untouched(mem, mem2, frames2)
  {
  }

  lemma TakenTransitive(free: set<nat>, frames: set<nat>, free1: set<nat>, frames1: set<nat>,
                        free2: set<nat>, frames2: set<nat>)
    requires Taken(free, frames, free1, frames1) && Taken(free1, frames1, free2, frames2)
    ensures Taken(free, frames, free2, frames2) && frames1 <= frames2 && free2 <= free1 <= free
  {
    forall f | f in free - free2
      ensures f in frames2 + {0}
    {
      assert f in free1 - free2 || f in free - free1;
    }
  }

  lemma TakeOne(free: set<nat>, frames: set<nat>, f: nat)
    requires f in free
    ensures Taken(free, frames, free - {f}, frames + {f})
  {
  }

  lemma TakeNone(free: set<nat>, frames: set<nat>)
    ensures Taken(free, frames, free, frames) && Taken(free, frames, free - {0}, frames)
  {
  }

  class AddressSpace {
    const memory: array<Word>
    const pmm: P.Allocator
    const root: nat

    /** The frame of every table, and the client's view: virtual page number to frame and flags. */
    ghost var tables: Tables
    ghost var pages: Pages

    ghost predicate Valid()
      reads this, memory, pmm, pmm.bitmap
    {
      && pmm.Valid()
      && memory.Length == ENTRIES * pmm.highestPage
      && Represents(memory[..], root, tables, pages)
      && TablesInUse()
    }

    /** No table frame is free, so the physical allocator never hands one out again. */
    ghost predicate TablesInUse()
      reads this, pmm
    {
      tables.Values <= pmm.managed - pmm.free
    }

    /** An address space over a zeroed PML4. */
    constructor (memory: array<Word>, pmm: P.Allocator, root: nat)
      requires pmm.Valid() && memory.Length == ENTRIES * pmm.highestPage
      requires root in pmm.managed && root !in pmm.free
      requires forall w | 0 <= w < memory.Length && w / ENTRIES == root :: memory[w] == 0
      ensures Valid() && this.memory == memory && this.pmm == pmm && this.root == root
      ensures pages == map[] && tables == map[ROOT := root]
    {
      this.memory := memory;
      this.pmm := pmm;
      this.root := root;
      this.tables := map[ROOT := root];
      this.pages := map[];
      new;
      EmptyTree(memory[..], root);
    }

    /** What a valid address space tells about the path of an address. */
    lemma PathFacts(vaddr: Word)
      requires Valid()
      ensures Frames(memory[..], tables) && ROOT in tables && tables[ROOT] == root
      ensures Represents(memory[..], root, tables, pages)
      ensures UserPath(memory[..], tables, ROOT)
      ensures Vpn(vaddr) in pages ==> At(vaddr, 1) in tables && At(vaddr, 2) in tables && At(vaddr, 3) in tables
    {
      TablesAbove(memory[..], root, tables, pages, vaddr);
    }

    lemma TreeFacts()
      requires Valid()
      ensures Represents(memory[..], root, tables, pages)
    {
    }

    /** What a valid address space tells about frames. */
    lemma FrameFacts()
      requires Valid()
      ensures pmm.free <= pmm.managed && tables.Values <= pmm.managed - pmm.free
      ensures forall p | p in pmm.managed :: p < pmm.highestPage
      ensures memory.Length == ENTRIES * pmm.highestPage && pmm.highestPage <= FRAME_LIMIT
    {
    }

    /** Zero the new table and enter it. */
    method WriteTable(frame: nat, index: nat, f: nat, flags: Word, ghost n: Node)
      requires f < pmm.highestPage <= FRAME_LIMIT && memory.Length == ENTRIES * pmm.highestPage
      requires Frames(memory[..], tables) && HasEntry(tables, n) && f !in tables.Values
      requires frame == tables[n.Parent()] && index == n.key % ENTRIES && ValidFlags(flags)
      modifies memory
      ensures MakeEntry(f, flags) < WORD_LIMIT
      ensures TableAdded(old(memory[..]), tables, n, f, MakeEntry(f, flags), memory[..])
    {
      ZeroFrame(memory, f);
      EntryFields(f, flags);
      memory[frame * ENTRIES + index] := Or(f * PAGE_SIZE, flags);
    }

    /** The new table joins the tree at position n. */
    method LinkTable(frame: nat, index: nat, f: nat, flags: Word, ghost n: Node)
      requires f < pmm.highestPage <= FRAME_LIMIT && memory.Length == ENTRIES * pmm.highestPage
      requires Represents(memory[..], root, tables, pages) && n !in tables && f !in tables.Values
      requires Frames(memory[..], tables)
      requires HasEntry(tables, n) && n.level <= 3 && frame == tables[n.Parent()] && index == n.key % ENTRIES
      requires ValidFlags(flags) && TableEntry(flags)
      requires User(flags) ==> UserPath(memory[..], tables, n.Parent())
      modifies memory, this`tables
      ensures tables == old(tables)[n := f] && tables.Values == old(tables.Values) + {f}
      ensures Represents(memory[..], root, tables, pages)
      ensures Frames(memory[..], tables)
      ensures User(flags) ==> UserPath(memory[..], tables, n)
      ensures Untouched(old(memory[..]), memory[..], tables.Values)
    {
      hide Represents;
      ghost var was := memory[..];
      WriteTable(frame, index, f, flags, n);
      TableLinked(was, root, tables, pages, n, f, flags, memory[..]);
      tables := tables[n := f];
    }

    /** `pmm_alloc_page`: the frame is then neither free nor a table. */
    method TakeFrame() returns (ok: bool, f: nat)
      requires Valid()
      modifies pmm, pmm.bitmap
      ensures Valid() && memory[..] == old(memory[..])
      ensures !ok ==> (pmm.free == {} || 0 in old(pmm.free)) && (pmm.free == old(pmm.free) || pmm.free == old(pmm.free) - {0})
      ensures ok ==> f in old(pmm.free) && pmm.free == old(pmm.free) - {f}
    {
      hide Represents;
      var address := pmm.AllocPage();
      assert memory[..] == old(memory[..]);
      ok, f := address != 0, address / PAGE_SIZE;
    }

    /** The frame becomes a table of the address space. */
    method AddTable(frame: nat, index: nat, f: nat, flags: Word, ghost n: Node)
      requires Valid() && HasEntry(tables, n) && n.level <= 3 && n !in tables
      requires f in pmm.managed && f !in pmm.free && f !in tables.Values
      requires frame == tables[n.Parent()] && index == n.key % ENTRIES
      requires ValidFlags(flags) && TableEntry(flags)
      requires Frames(memory[..], tables) && (User(flags) ==> UserPath(memory[..], tables, n.Parent()))
      modifies memory, this`tables
      ensures Valid() && Frames(memory[..], tables) && tables == old(tables)[n := f]
      ensures tables.Values == old(tables.Values) + {f}
      ensures User(flags) ==> UserPath(memory[..], tables, n)
      ensures Untouched(old(memory[..]), memory[..], tables.Values)
    {
      hide Represents;
      hide UserPath;
      hide Frames;
      hide Untouched;
      LinkTable(frame, index, f, flags, n);
    }

    /** `get_next_level`, first branch: a new table for position n. */
    method NewTable(frame: nat, index: nat, flags: Word, ghost n: Node) returns (ok: bool, next: nat)
      requires Valid() && Frames(memory[..], tables) && HasEntry(tables, n) && n.level <= 3 && n !in tables
      requires frame == tables[n.Parent()] && index == n.key % ENTRIES
      requires ValidFlags(flags) && TableEntry(flags)
      requires User(flags) ==> UserPath(memory[..], tables, n.Parent())
      modifies this`tables, memory, pmm, pmm.bitmap
      ensures Valid() && Frames(memory[..], tables) && Untouched(old(memory[..]), memory[..], tables.Values)
      ensures Taken(old(pmm.free), old(tables.Values), pmm.free, tables.Values)
      ensures !ok ==> tables == old(tables) && memory[..] == old(memory[..])
      ensures !ok ==> pmm.free == {} || 0 in old(pmm.free)
      ensures ok ==> next in old(pmm.free) && tables == old(tables)[n := next]
      ensures ok && User(flags) ==> UserPath(memory[..], tables, n)
    {
      hide Represents;
      hide UserPath;
      hide Frames;
      hide Taken;
      TakeNone(pmm.free, tables.Values);
      ok, next := TakeFrame();
      if ok {
        TakeOne(old(pmm.free), tables.Values, next);
        AddTable(frame, index, next, flags, n);
      }
    }

    /** `*table_entry |= flag` on the entry of an existing table. */
    method SetFlag(frame: nat, index: nat, flag: Word, ghost n: Node)
      requires Represents(memory[..], root, tables, pages) && n in tables && HasEntry(tables, n)
      requires frame == tables[n.Parent()] && index == n.key % ENTRIES
      requires flag == PTE_RW || flag == PTE_USER
      modifies memory
      ensures Represents(memory[..], root, tables, pages)
      ensures Frames(memory[..], tables) && Opens(old(memory[..]), tables, memory[..], tables)
      ensures flag == PTE_USER ==> User(Entry(memory[..], tables, n))
      ensures Untouched(old(memory[..]), memory[..], tables.Values)
    {
      hide Represents;
      hide Opens;
      hide Untouched;
      hide Or;
      var slot := frame * ENTRIES + index;
      ghost var was := memory[..];
      FlagSet(was, root, tables, pages, n, flag);
      memory[slot] := Or(memory[slot], flag);
      assert memory[..] == was[slot := Or(was[slot], flag)];
    }

    /** `get_next_level`, second branch: the table exists, its entry may gain rights. */
    method OldTable(frame: nat, index: nat, flags: Word, ghost n: Node) returns (next: nat)
      requires Represents(memory[..], root, tables, pages) && n in tables && HasEntry(tables, n)
      requires frame == tables[n.Parent()] && index == n.key % ENTRIES
      requires User(flags) ==> UserPath(memory[..], tables, n.Parent())
      modifies memory
      ensures Represents(memory[..], root, tables, pages) && next == tables[n]
      ensures Frames(memory[..], tables)
      ensures User(flags) ==> UserPath(memory[..], tables, n)
      ensures Untouched(old(memory[..]), memory[..], tables.Values)
    {
      ghost var was := memory[..];
      hide Represents;
      if User(flags) {
        SetFlag(frame, index, PTE_USER, n);
        UserPathKept(was, tables, memory[..], tables, n.Parent());
        was := memory[..];
      }
      if Writable(flags) {
        SetFlag(frame, index, PTE_RW, n);
        if User(flags) {
          UserPathKept(was, tables, memory[..], tables, n);
        }
      }
      next := ReadLink(frame, index, n);
    }

    /** The table an entry refers to: `*table_entry & 0x000FFFFFFFFFF000`. */
    method ReadLink(frame: nat, index: nat, ghost n: Node) returns (next: nat)
      requires Represents(memory[..], root, tables, pages) && n in tables && HasEntry(tables, n)
      requires frame == tables[n.Parent()] && index == n.key % ENTRIES
      ensures next == tables[n]
    {
      assert LinkOk(memory[..], tables, n);
      next := FrameOf(memory[frame * ENTRIES + index]);
    }

    /** An entry above the leaves is present exactly if its table exists. */
    lemma EntryFacts(frame: nat, index: nat, n: Node)
      requires Valid() && HasEntry(tables, n) && n.level <= 3
      requires frame == tables[n.Parent()] && index == n.key % ENTRIES
      ensures frame * ENTRIES + index < memory.Length && (Present(memory[frame * ENTRIES + index]) <==> n in tables)
      ensures Represents(memory[..], root, tables, pages) && Frames(memory[..], tables)
      ensures Taken(pmm.free, tables.Values, pmm.free, tables.Values)
    {
      assert LinkOk(memory[..], tables, n);
    }

    /** `get_next_level`: the table at position n, created if it is missing. */
    method GetNextLevel(frame: nat, index: nat, flags: Word, ghost n: Node) returns (ok: bool, next: nat)
      requires Valid() && HasEntry(tables, n) && n.level <= 3
      requires frame == tables[n.Parent()] && index == n.key % ENTRIES
      requires ValidFlags(flags) && TableEntry(flags)
      requires User(flags) ==> UserPath(memory[..], tables, n.Parent())
      modifies this`tables, memory, pmm, pmm.bitmap
      ensures Valid() && Frames(memory[..], tables) && Untouched(old(memory[..]), memory[..], tables.Values)
      ensures Taken(old(pmm.free), old(tables.Values), pmm.free, tables.Values)
      ensures n in old(tables) ==> ok && tables == old(tables) && pmm.free == old(pmm.free)
      ensures n !in old(tables) && ok ==> tables == old(tables)[n := next] && next in old(pmm.free)
      ensures !ok ==> tables == old(tables) && memory[..] == old(memory[..])
      ensures !ok ==> pmm.free == {} || 0 in old(pmm.free)
      ensures ok ==> n in tables && next == tables[n]
      ensures ok && User(flags) ==> UserPath(memory[..], tables, n)
    {
      hide Represents;
      hide Untouched;
      hide Taken;
      hide UserPath;
      hide Frames;
      EntryFacts(frame, index, n);
      if !Present(memory[frame * ENTRIES + index]) {
        ok, next := NewTable(frame, index, flags, n);
      } else {
        ok := true;
        next := OldTable(frame, index, flags, n);
      }
    }

    /** The three calls of `get_next_level` in `vmm_map`. */
    method Descend(vaddr: Word, flags: Word) returns (ok: bool, pt: nat)
      requires Valid() && ValidFlags(flags) && TableEntry(flags)
      modifies this`tables, memory, pmm, pmm.bitmap
      ensures Valid() && Frames(memory[..], tables) && Untouched(old(memory[..]), memory[..], tables.Values)
      ensures Taken(old(pmm.free), old(tables.Values), pmm.free, tables.Values)
      ensures At(vaddr, 1) in old(tables) && At(vaddr, 2) in old(tables) && At(vaddr, 3) in old(tables) ==> ok
      ensures !ok ==> pmm.free == {} || 0 in old(pmm.free)
      ensures ok ==> At(vaddr, 3) in tables && pt == tables[At(vaddr, 3)]
      ensures ok && User(flags) ==> UserPath(memory[..], tables, At(vaddr, 3))
    {
      hide Valid;
      hide UserPath;
      hide Frames;
      hide Taken;
      hide Untouched;
      PathFacts(vaddr);
      hide At;
      PathIndexes(vaddr);
      ghost var mem0, free0, frames0 := memory[..], pmm.free, tables.Values;
      var pdpt, pd;
      ok, pdpt := GetNextLevel(root, And(vaddr / 0x80_0000_0000, 0x1FF), flags, At(vaddr, 1));
      if !ok {
        return false, 0;
      }
      ghost var mem1, free1, frames1 := memory[..], pmm.free, tables.Values;
      ok, pd := GetNextLevel(pdpt, And(vaddr / 0x4000_0000, 0x1FF), flags, At(vaddr, 2));
      ghost var mem2, free2, frames2 := memory[..], pmm.free, tables.Values;
      TakenTransitive(free0, frames0, free1, frames1, free2, frames2);
      UntouchedTransitive(mem0, mem1, frames1, mem2, frames2);
      if !ok {
        return false, 0;
      }
      ok, pt := GetNextLevel(pd, And(vaddr / 0x20_0000, 0x1FF), flags, At(vaddr, 3));
      TakenTransitive(free0, frames0, free2, frames2, pmm.free, tables.Values);
      UntouchedTransitive(mem0, mem2, frames2, memory[..], tables.Values);
    }

    /** A store to the leaf entry of a virtual page. */
    method WriteLeaf(pt: nat, index: nat, entry: Word, ghost n: Node, ghost pages': Pages)
      requires Represents(memory[..], root, tables, pages) && n.level == 4 && HasEntry(tables, n)
      requires LeafWrite(memory[..], tables, pages, n, entry, pages')
      requires pt == tables[n.Parent()] && index == n.key % ENTRIES
      modifies memory, this`pages
      ensures pages == pages' && Represents(memory[..], root, tables, pages)
      ensures Untouched(old(memory[..]), memory[..], tables.Values)
      ensures Slot(pt, index) < memory.Length && memory[Slot(pt, index)] == entry
    {
      ghost var was := memory[..];
      LeafWriteKeeps(was, root, tables, pages, n, entry, pages');
      assert tables[n.Parent()] in tables.Values;
      memory[pt * ENTRIES + index] := entry;
      assert memory[..] == was[SlotOf(tables, n) := entry];
      pages := pages';
    }

    /** Whether the leaf at position n maps its page. */
    method ReadLeaf(pt: nat, index: nat, ghost n: Node) returns (entry: Word)
      requires Represents(memory[..], root, tables, pages) && n.level == 4 && HasEntry(tables, n)
      requires pt == tables[n.Parent()] && index == n.key % ENTRIES
      ensures Present(entry) <==> n.key in pages
      ensures n.key in pages ==> entry == MakeEntry(pages[n.key].frame, pages[n.key].flags)
    {
      hide Represents;
      hide Valid;
      LeafFacts(memory[..], root, tables, pages, n);
      entry := memory[pt * ENTRIES + index];
    }

    /** The second half of `vmm_map`: the check for a double mapping and the leaf entry. */
    method MapLeaf(vaddr: Word, paddr: Word, flags: Word, pt: nat) returns (r: Outcome)
      requires Valid() && Frames(memory[..], tables)
      requires At(vaddr, 3) in tables && pt == tables[At(vaddr, 3)]
      requires User(flags) ==> UserPath(memory[..], tables, At(vaddr, 3))
      requires paddr % PAGE_SIZE == 0 && paddr < FRAME_LIMIT * PAGE_SIZE && ValidFlags(flags)
      modifies memory, this`pages
      ensures Valid() && Untouched(old(memory[..]), memory[..], tables.Values)
      ensures if Vpn(vaddr) in old(pages) then r == DoubleMapping && pages == old(pages)
              else r == Done && pages == Mapping(old(pages), vaddr, paddr, flags)
      ensures r == Done ==>
                && Slot(pt, vaddr / 0x1000 % 512) < memory.Length
                && memory[Slot(pt, vaddr / 0x1000 % 512)] == Or(paddr, flags)
    {
      hide Represents;
      PathStep(vaddr, 3);
      LowMasks(vaddr / 0x1000);
      var index := And(vaddr / 0x1000, 0x1FF);
      var entry := ReadLeaf(pt, index, At(vaddr, 4));
      if Present(entry) {
        return DoubleMapping;
      }
      EntryFields(paddr / PAGE_SIZE, flags);
      assert paddr / PAGE_SIZE * PAGE_SIZE == paddr;
      WriteLeaf(pt, index, Or(paddr, flags), At(vaddr, 4), Mapping(pages, vaddr, paddr, flags));
      return Done;
    }

    /** `vmm_map` */
    method Map(vaddr: Word, paddr: Word, flags: Word) returns (r: Outcome)
      requires Valid()
      requires paddr % PAGE_SIZE == 0 && paddr < FRAME_LIMIT * PAGE_SIZE && ValidFlags(flags)
      modifies this`tables, this`pages, memory, pmm, pmm.bitmap
      ensures Valid() && Untouched(old(memory[..]), memory[..], tables.Values)
      ensures Taken(old(pmm.free), old(tables.Values), pmm.free, tables.Values)
      ensures Vpn(vaddr) in old(pages) <==> r == DoubleMapping
      ensures pages == if r == Done then Mapping(old(pages), vaddr, paddr, flags) else old(pages)
      ensures r == OutOfMemory ==> pmm.free == {} || 0 in old(pmm.free)
      ensures forall w: Word ::
                Translate(memory[..], root, w) ==
                if r == Done && Present(flags) && Vpn(w) == Vpn(vaddr)
                then Mapped(paddr + w % 0x1000, User(flags), Writable(flags), !NoExecute(flags))
                else Translate(old(memory[..]), root, w)
      ensures r == Done ==>
                && At(vaddr, 3) in tables && Slot(tables[At(vaddr, 3)], vaddr / 0x1000 % 512) < memory.Length
                && memory[Slot(tables[At(vaddr, 3)], vaddr / 0x1000 % 512)] == Or(paddr, flags)
    {
      hide Valid;
      hide UserPath;
      hide Frames;
      hide Taken;
      hide Untouched;
      hide Translate;
      hide Mapping;
      hide Or;
      hide And;
      hide User;
      hide Present;
      hide Writable;
      hide NoExecute;
      hide At;
      hide Represents;
      ghost var tables0, pages0 := tables, pages;
      PathFacts(vaddr);
      var intermediate := PTE_PRESENT + PTE_RW;
      if User(flags) {
        intermediate := intermediate + PTE_USER;
      }
      IntermediateFlags();
      ghost var mem0 := memory[..];
      var ok, pt := Descend(vaddr, intermediate);
      if !ok {
        TreeFacts();
        SameTranslation(mem0, memory[..], root, tables0, tables, pages);
        return OutOfMemory;
      }
      ghost var mem1 := memory[..];
      r := MapLeaf(vaddr, paddr, flags, pt);
      UntouchedTransitive(mem0, mem1, tables.Values, memory[..], tables.Values);
      TreeFacts();
      if r == Done {
        MappedTranslation(mem0, memory[..], root, tables0, tables, pages0, vaddr, paddr, flags);
      } else {
        SameTranslation(mem0, memory[..], root, tables0, tables, pages);
      }
    }

    /** One step of a walk that does not create tables: is the entry present, and where does it lead? */
    method Follow(frame: nat, index: nat, ghost n: Node) returns (present: bool, next: nat)
      requires Represents(memory[..], root, tables, pages) && HasEntry(tables, n) && n.level <= 3
      requires frame == tables[n.Parent()] && index == n.key % ENTRIES
      ensures present <==> n in tables
      ensures frame * ENTRIES + index < memory.Length
      ensures present ==> next == tables[n] && !Large(memory[frame * ENTRIES + index])
    {
      assert LinkOk(memory[..], tables, n);
      var entry := memory[frame * ENTRIES + index];
      present, next := Present(entry), FrameOf(entry);
    }

    /** The three steps from the PML4 to the page table of an address. */
    method FindTable(vaddr: Word) returns (found: bool, pd: nat, pt: nat)
      requires Represents(memory[..], root, tables, pages)
      ensures found ==> At(vaddr, 3) in tables && pt == tables[At(vaddr, 3)]
      ensures found ==> Slot(pd, ENTRIES) <= memory.Length && !Large(memory[pd * ENTRIES + Index(vaddr, 2)])
      ensures !found ==> Vpn(vaddr) !in pages
      ensures Vpn(vaddr) in pages ==> pages[Vpn(vaddr)].Valid()
    {
      hide Represents;
      hide At;
      PathIndexes(vaddr);
      TablesAbove(memory[..], root, tables, pages, vaddr);
      var pdpt;
      found, pdpt := Follow(root, And(vaddr / 0x80_0000_0000, 0x1FF), At(vaddr, 1));
      if !found {
        return false, 0, 0;
      }
      found, pd := Follow(pdpt, And(vaddr / 0x4000_0000, 0x1FF), At(vaddr, 2));
      if !found {
        return false, 0, 0;
      }
      found, pt := Follow(pd, And(vaddr / 0x20_0000, 0x1FF), At(vaddr, 3));
    }

    /** `vmm_unmap` */
    method Unmap(vaddr: Word)
      requires Valid()
      modifies this`pages, memory
      ensures Valid() && Untouched(old(memory[..]), memory[..], tables.Values)
      ensures pages == old(pages) - {Vpn(vaddr)}
      ensures forall w: Word ::
                Translate(memory[..], root, w) ==
                if Vpn(w) == Vpn(vaddr) then NotMapped else Translate(old(memory[..]), root, w)
    {
      hide Represents;
      hide Translate;
      ghost var mem0, pages0 := memory[..], pages;
      var found, _, pt := FindTable(vaddr);
      if found {
        PathStep(vaddr, 3);
        LowMasks(vaddr / 0x1000);
        var index := And(vaddr / 0x1000, 0x1FF);
        var entry := ReadLeaf(pt, index, At(vaddr, 4));
        if Present(entry) {
          WriteLeaf(pt, index, 0, At(vaddr, 4), pages - {Vpn(vaddr)});
        }
      }
      assert pages == pages0 - {Vpn(vaddr)};
      UnmappedTranslation(mem0, memory[..], root, tables, tables, pages0, vaddr);
    }

    /** The last lines of `vmm_virt_to_phys`: the page table entry and the page offset. */
    method LeafAddress(vaddr: Word, pt: nat) returns (paddr: nat)
      requires Represents(memory[..], root, tables, pages)
      requires At(vaddr, 3) in tables && pt == tables[At(vaddr, 3)]
      requires Vpn(vaddr) in pages ==> pages[Vpn(vaddr)].Valid()
      ensures paddr == if Vpn(vaddr) in pages then pages[Vpn(vaddr)].frame * PAGE_SIZE + vaddr % PAGE_SIZE else 0
    {
      hide Represents;
      PathStep(vaddr, 3);
      LowMasks(vaddr / 0x1000);
      LowMasks(vaddr);
      var entry := ReadLeaf(pt, And(vaddr / 0x1000, 0x1FF), At(vaddr, 4));
      if !Present(entry) {
        return 0;
      }
      EntryFields(pages[Vpn(vaddr)].frame, pages[Vpn(vaddr)].flags);
      FrameAddress(entry);
      return And(entry, ADDRESS_MASK) + And(vaddr, 0xFFF);
    }

    /** `vmm_virt_to_phys`: the kernel's own walk, with its 2 MiB branch, agrees with the processor's. */
    method VirtToPhys(vaddr: Word) returns (paddr: nat)
      requires Valid()
      ensures paddr == if Vpn(vaddr) in pages then pages[Vpn(vaddr)].frame * PAGE_SIZE + vaddr % PAGE_SIZE else 0
      ensures paddr == match Translate(memory[..], root, vaddr) case NotMapped => 0 case Mapped(address, _, _, _) => address
    {
      hide Represents;
      TranslationIsLookup(memory[..], root, tables, pages, vaddr);
      var found, pd, pt := FindTable(vaddr);
      if !found {
        return 0;
      }
      LowMasks(vaddr / 0x20_0000);
      var pdEntry := memory[pd * ENTRIES + And(vaddr / 0x20_0000, 0x1FF)];
      var largeAddress: nat := And(pdEntry, LARGE_ADDRESS_MASK) + And(vaddr, 0x1F_FFFF);
      if Large(pdEntry) {
        return largeAddress;
      }
      paddr := LeafAddress(vaddr, pt);
    }

    /** Any sequence of calls, up to the first panic. */
    method Execute(calls: seq<Call>) returns (done: nat)
      requires Valid() && forall c | c in calls :: c.Valid()
      modifies this`tables, this`pages, memory, pmm, pmm.bitmap
      ensures Valid() && done <= |calls|
      ensures pages == Effects(old(pages), calls[..done])
      ensures forall vaddr: Word :: Translate(memory[..], root, vaddr) == Lookup(Effects(old(pages), calls[..done]), vaddr)
      ensures done < |calls| ==>
                && calls[done].MapCall?
                && (Vpn(calls[done].vaddr) in pages || pmm.free == {} || 0 in old(pmm.free))
    {
      hide Represents;
      done := 0;
      while done < |calls|
        invariant done <= |calls| && Valid() && pages == Effects(old(pages), calls[..done])
        invariant pmm.free <= old(pmm.free)
        decreases |calls| - done
      {
        assert calls[done] in calls;
        assert calls[..done + 1][..done] == calls[..done];
        match calls[done] {
          case MapCall(vaddr, paddr, flags) =>
            var r := Map(vaddr, paddr, flags);
            if r != Done {
              break;
            }
          case UnmapCall(vaddr) =>
            Unmap(vaddr);
        }
        done := done + 1;
      }
      forall vaddr: Word
        ensures Translate(memory[..], root, vaddr) == Lookup(pages, vaddr)
      {
        TranslationIsLookup(memory[..], root, tables, pages, vaddr);
      }
    }
  }

  datatype Call =
    | MapCall(vaddr: Word, paddr: Word, flags: Word)
    | UnmapCall(vaddr: Word)
  {
    predicate Valid() {
      MapCall? ==> paddr % PAGE_SIZE == 0 && paddr < FRAME_LIMIT * PAGE_SIZE && ValidFlags(flags)
    }

    function Effect(pages: Pages): Pages {
      match this
      case MapCall(vaddr, paddr, flags) => Mapping(pages, vaddr, paddr, flags)
      case UnmapCall(vaddr) => pages - {Vpn(vaddr)}
    }
  }

  function Effects(pages: Pages, calls: seq<Call>): Pages {
    if calls == [] then pages
    else calls[|calls| - 1].Effect(Effects(pages, calls[..|calls| - 1]))
  }

  /** The client's map after a page has been mapped. */
  function Mapping(pages: Pages, vaddr: Word, paddr: Word, flags: Word): Pages {
    if Present(flags) then pages[Vpn(vaddr) := Page(paddr / PAGE_SIZE, flags)] else pages
  }

  /** What a mapping means to the processor: the frame, and exactly the rights that the flags give. */
  lemma MappingIs(pages: Pages, vaddr: Word, paddr: Word, flags: Word, w: Word)
    requires paddr % PAGE_SIZE == 0 && Present(flags)
    ensures Lookup(Mapping(pages, vaddr, paddr, flags), w) ==
            if Vpn(w) == Vpn(vaddr) then Mapped(paddr + w % 0x1000, User(flags), Writable(flags), !NoExecute(flags))
            else Lookup(pages, w)
  {
  }

  lemma MappedTranslation(mem: Memory, mem': Memory, root: nat, tables: Tables, tables': Tables, pages: Pages,
                          vaddr: Word, paddr: Word, flags: Word)
    requires Represents(mem, root, tables, pages) && paddr % PAGE_SIZE == 0
    requires Represents(mem', root, tables', Mapping(pages, vaddr, paddr, flags))
    ensures forall w: Word ::
              Translate(mem', root, w) ==
              if Present(flags) && Vpn(w) == Vpn(vaddr)
              then Mapped(paddr + w % 0x1000, User(flags), Writable(flags), !NoExecute(flags))
              else Translate(mem, root, w)
  {
    hide Represents;
    hide Translate;
    hide Lookup;
    hide Present;
    forall w: Word
      ensures Translate(mem', root, w) == Lookup(Mapping(pages, vaddr, paddr, flags), w)
      ensures Translate(mem, root, w) == Lookup(pages, w)
      ensures Present(flags) ==>
                Lookup(Mapping(pages, vaddr, paddr, flags), w) ==
                if Vpn(w) == Vpn(vaddr) then Mapped(paddr + w % 0x1000, User(flags), Writable(flags), !NoExecute(flags))
                else Lookup(pages, w)
    {
      TranslationIsLookup(mem, root, tables, pages, w);
      TranslationIsLookup(mem', root, tables', Mapping(pages, vaddr, paddr, flags), w);
      if Present(flags) {
        MappingIs(pages, vaddr, paddr, flags, w);
      }
    }
  }

  lemma SameTranslation(mem: Memory, mem': Memory, root: nat, tables: Tables, tables': Tables, pages: Pages)
    requires Represents(mem, root, tables, pages) && Represents(mem', root, tables', pages)
    ensures forall w: Word :: Translate(mem', root, w) == Translate(mem, root, w)
  {
    hide Represents;
    hide Translate;
    hide Lookup;
    forall w: Word
      ensures Translate(mem', root, w) == Translate(mem, root, w)
    {
      TranslationIsLookup(mem, root, tables, pages, w);
      TranslationIsLookup(mem', root, tables', pages, w);
    }
  }

  lemma UnmappedTranslation(mem: Memory, mem': Memory, root: nat, tables: Tables, tables': Tables, pages: Pages, vaddr: Word)
    requires Represents(mem, root, tables, pages) && Represents(mem', root, tables', pages - {Vpn(vaddr)})
    ensures forall w: Word ::
              Translate(mem', root, w) == if Vpn(w) == Vpn(vaddr) then NotMapped else Translate(mem, root, w)
  {
    hide Represents;
    hide Translate;
    forall w: Word
      ensures Translate(mem', root, w) == if Vpn(w) == Vpn(vaddr) then NotMapped else Translate(mem, root, w)
    {
      TranslationIsLookup(mem, root, tables, pages, w);
      TranslationIsLookup(mem', root, tables', pages - {Vpn(vaddr)}, w);
    }
  }

  lemma IntermediateFlags()
    ensures ValidFlags(PTE_PRESENT + PTE_RW) && TableEntry(PTE_PRESENT + PTE_RW) && !User(PTE_PRESENT + PTE_RW)
    ensures ValidFlags(PTE_PRESENT + PTE_RW + PTE_USER) && TableEntry(PTE_PRESENT + PTE_RW + PTE_USER)
    ensures User(PTE_PRESENT + PTE_RW + PTE_USER)
  {
    FlagMasks(3);
    FlagMasks(7);
    AddressMasks(3);
    AddressMasks(7);
  }

  /** The four index expressions of the kernel select the path of the address. */
  lemma PathIndexes(vaddr: Word)
    ensures At(vaddr, 0) == ROOT
    ensures var n := At(vaddr, 1);
            n.level == 1 && n.Parent() == ROOT && And(vaddr / 0x80_0000_0000, 0x1FF) == n.key % ENTRIES
    ensures var n := At(vaddr, 2);
            n.level == 2 && n.Parent() == At(vaddr, 1) && And(vaddr / 0x4000_0000, 0x1FF) == n.key % ENTRIES
    ensures var n := At(vaddr, 3);
            n.level == 3 && n.Parent() == At(vaddr, 2) && And(vaddr / 0x20_0000, 0x1FF) == n.key % ENTRIES
    ensures var n := At(vaddr, 4);
            n.level == 4 && n.Parent() == At(vaddr, 3) && And(vaddr / 0x1000, 0x1FF) == n.key % ENTRIES
    ensures Index(vaddr, 2) == And(vaddr / 0x20_0000, 0x1FF)
  {
    PathStep(vaddr, 0);
    PathStep(vaddr, 1);
    PathStep(vaddr, 2);
    PathStep(vaddr, 3);
    LowMasks(vaddr / 0x80_0000_0000);
    LowMasks(vaddr / 0x4000_0000);
    LowMasks(vaddr / 0x20_0000);
    LowMasks(vaddr / 0x1000);
  }

  /** A flag more in the entry of a table: more rights, and nothing else. */
  lemma FlagSet(mem: Memory, root: nat, tables: Tables, pages: Pages, n: Node, flag: Word)
    requires Represents(mem, root, tables, pages) && n in tables && HasEntry(tables, n)
    requires flag == PTE_RW || flag == PTE_USER
    ensures Frames(mem, tables) && SlotOf(tables, n) < |mem| && Or(mem[SlotOf(tables, n)], flag) < WORD_LIMIT
    ensures var slot := SlotOf(tables, n);
            var mem' := mem[slot := Or(mem[slot], flag)];
            && Represents(mem', root, tables, pages) && Frames(mem', tables)
            && Opens(mem, tables, mem', tables) && Untouched(mem, mem', tables.Values)
            && (flag == PTE_USER ==> User(Entry(mem', tables, n)))
  {
    hide Represents;
    hide Or;
    hide And;
    hide Opens;
    LinkFacts(mem, root, tables, pages, n);
    UpgradeFields(Entry(mem, tables, n), flag);
    UpgradeKeeps(mem, root, tables, pages, n, Or(Entry(mem, tables, n), flag));
    assert tables[n.Parent()] in tables.Values;
  }

  lemma LinkFacts(mem: Memory, root: nat, tables: Tables, pages: Pages, n: Node)
    requires Represents(mem, root, tables, pages) && n in tables && HasEntry(tables, n)
    ensures Frames(mem, tables) && n.level <= 3 && LinkOk(mem, tables, n)
  {
  }

  /** A leaf entry is present exactly if its page is mapped, and says to what. */
  lemma LeafFacts(mem: Memory, root: nat, tables: Tables, pages: Pages, n: Node)
    requires Represents(mem, root, tables, pages) && n.level == 4 && HasEntry(tables, n)
    ensures Slot(tables[n.Parent()], n.key % ENTRIES) < |mem|
    ensures var e := mem[Slot(tables[n.Parent()], n.key % ENTRIES)];
            && (Present(e) <==> n.key in pages)
            && (n.key in pages ==> e == MakeEntry(pages[n.key].frame, pages[n.key].flags))
  {
    assert LeafOk(mem, tables, pages, n);
  }

  /** The root table, and the three tables of a mapped page. */
  lemma TablesAbove(mem: Memory, root: nat, tables: Tables, pages: Pages, vaddr: Word)
    requires Represents(mem, root, tables, pages)
    ensures ROOT in tables && tables[ROOT] == root
    ensures forall n | n in tables :: Slot(tables[n], ENTRIES) <= |mem|
    ensures Vpn(vaddr) in pages ==> At(vaddr, 1) in tables && At(vaddr, 2) in tables && At(vaddr, 3) in tables
    ensures Vpn(vaddr) in pages ==> pages[Vpn(vaddr)].Valid()
  {
    if Vpn(vaddr) in pages {
      PageHasTables(mem, root, tables, pages, vaddr, 1);
      PageHasTables(mem, root, tables, pages, vaddr, 2);
      PageHasTables(mem, root, tables, pages, vaddr, 3);
    }
  }

  /** Adding a table touches no frame that is not a table's, and makes one more frame a table's. */
  lemma AddedFrames(mem: Memory, tables: Tables, n: Node, f: nat, e: Word, mem': Memory)
    requires Frames(mem, tables) && HasEntry(tables, n) && n !in tables
    requires TableAdded(mem, tables, n, f, e, mem')
    ensures tables[n := f].Values == tables.Values + {f}
    ensures Untouched(mem, mem', tables[n := f].Values)
  {
    var tables' := tables[n := f];
    assert forall m | m in tables' :: tables'[m] == if m == n then f else tables[m];
    forall g
      ensures g in tables'.Values <==> g in tables.Values || g == f
    {
      if g in tables.Values {
        var m :| m in tables && tables[m] == g;
        assert m in tables' && tables'[m] == g;
      }
      assert n in tables' && tables'[n] == f;
    }
    assert SlotOf(tables, n) / ENTRIES == tables[n.Parent()];
    assert tables[n.Parent()] in tables.Values;
  }

  /** The part of `vmm_init` before the higher half is copied; null is the panic. */
  method Init(memory: array<Word>, pmm: P.Allocator) returns (space: AddressSpace?)
    requires pmm.Valid() && memory.Length == ENTRIES * pmm.highestPage
    modifies memory, pmm, pmm.bitmap
    ensures pmm.Valid()
    ensures space == null ==> pmm.free == {} || 0 in old(pmm.free)
    ensures space != null ==>
              && fresh(space) && space.Valid() && space.memory == memory && space.pmm == pmm
              && space.pages == map[] && space.root in old(pmm.free) && pmm.free == old(pmm.free) - {space.root}
  {
    var address := pmm.AllocPage();
    if address == 0 {
      return null;
    }
    var root := address / PAGE_SIZE;
    ZeroFrame(memory, root);
    space := new AddressSpace(memory, pmm, root);
  }

  lemma TableLinked(mem: Memory, root: nat, tables: Tables, pages: Pages, n: Node, f: nat, flags: Word, mem': Memory)
    requires Represents(mem, root, tables, pages) && HasEntry(tables, n) && n.level <= 3 && n !in tables
    requires f < FRAME_LIMIT && f !in tables.Values && Slot(f, ENTRIES) <= |mem|
    requires ValidFlags(flags) && TableEntry(flags) && (User(flags) ==> UserPath(mem, tables, n.Parent()))
    requires MakeEntry(f, flags) < WORD_LIMIT && TableAdded(mem, tables, n, f, MakeEntry(f, flags), mem')
    ensures Represents(mem', root, tables[n := f], pages) && Frames(mem', tables[n := f])
    ensures tables[n := f].Values == tables.Values + {f}
    ensures User(flags) ==> UserPath(mem', tables[n := f], n)
    ensures Untouched(mem, mem', tables[n := f].Values)
  {
    assert forall m | m in tables :: tables[m] in tables.Values;
    EntryFields(f, flags);
    TableAddedKeeps(mem, root, tables, pages, n, f, MakeEntry(f, flags), mem');
    AddedFrames(mem, tables, n, f, MakeEntry(f, flags), mem');
    if User(flags) {
      UserPathKept(mem, tables, mem', tables[n := f], n.Parent());
    }
  }

  lemma EmptyTree(mem: Memory, root: nat)
    requires Slot(root, ENTRIES) <= |mem|
    requires forall w | 0 <= w < |mem| && w / ENTRIES == root :: mem[w] == 0
    ensures Represents(mem, root, map[ROOT := root], map[])
  {
    var tables: Tables := map[ROOT := root];
    forall n | HasEntry(tables, n)
      ensures Entry(mem, tables, n) == 0
    {
      var w := SlotOf(tables, n);
      assert w / ENTRIES == root;
    }
  }
}
