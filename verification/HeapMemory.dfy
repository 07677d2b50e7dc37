/**
  The virtual memory under the kernel heap: pages mapped one after the other from KHEAP_START,
  each to its own physical frame (the mapping loops of mm/heap.c).

  Loads and stores go through the processor's translation of the page tables.  `words` is what
  the kernel sees at the heap addresses; that it behaves like memory at all (a store changes one
  word and nothing else) rests on no two heap pages sharing a frame and no heap frame being a
  page table.
 */
module HeapMemory {
  import opened Bits
  import opened Sizes
  import opened Pte
  import opened PageTables
  import V = Vmm

  const KHEAP_START: nat := 0xffff_a000_0000_0000
  const HEAP_VPN: nat := 0xa_0000_0000

  /** Up to 64 TiB of physical memory the heap cannot reach the end of the address space. */
  const MAX_FRAMES: nat := 0x4_0000_0000

  /** `PTE_PRESENT | PTE_RW` */
  const HEAP_FLAGS: nat := PTE_PRESENT + PTE_RW

  lemma HeapFlags()
    ensures ValidFlags(HEAP_FLAGS) && Present(HEAP_FLAGS) && Writable(HEAP_FLAGS)
  {
    FlagMasks(HEAP_FLAGS);
    AddressMasks(HEAP_FLAGS);
  }

  lemma HeapRights()
    ensures Writable(HEAP_FLAGS) && !User(HEAP_FLAGS) && !NoExecute(HEAP_FLAGS)
  {
    FlagMasks(HEAP_FLAGS);
  }

  /** Distinct frames below n are at most n. */
  lemma {:induction false} Pigeonhole(frames: seq<nat>, n: nat)
    requires forall i | 0 <= i < |frames| :: frames[i] < n
    requires forall i, j | 0 <= i < j < |frames| :: frames[i] != frames[j]
    ensures |frames| <= n
  {
    var s := set i | 0 <= i < |frames| :: frames[i];
    SeqSetSize(frames, s);
    BoundedSetSize(s, n);
  }

  lemma {:induction false} SeqSetSize(frames: seq<nat>, s: set<nat>)
    requires forall i, j | 0 <= i < j < |frames| :: frames[i] != frames[j]
    requires forall f :: f in s <==> f in frames
    ensures |s| == |frames|
  {
    if frames == [] {
      assert s == {};
    } else {
      var n := |frames| - 1;
      SeqSetSize(frames[..n], s - {frames[n]});
    }
  }

  lemma {:induction false} BoundedSetSize(s: set<nat>, n: nat)
    requires forall f | f in s :: f < n
    ensures |s| <= n
  {
    if n > 0 {
      BoundedSetSize(s - {n - 1}, n - 1);
    } else {
      assert s == {};
    }
  }

  /** The page number of a heap address. */
  lemma HeapVpn(k: nat, offset: nat)
    requires k < MAX_FRAMES && offset < PAGE_SIZE
    ensures KHEAP_START + k * PAGE_SIZE + offset < WORD_LIMIT
    ensures Vpn(KHEAP_START + k * PAGE_SIZE + offset) == HEAP_VPN + k
    ensures (KHEAP_START + k * PAGE_SIZE + offset) % 0x1000 == offset
  {
    var a := KHEAP_START + k * PAGE_SIZE + offset;
    assert a / 0x1000 == 0xffff_a000_0000_0 + k;
    assert 0xffff_a000_0000_0 + k == 0xffff * VPN_LIMIT + (HEAP_VPN + k);
  }

  /** The index of the word at a heap address. */
  function WordIndex(address: nat): nat
    requires address >= KHEAP_START
  {
    (address - KHEAP_START) / 8
  }

  /** Word k of the heap lies in this word of physical memory. */
  function Cell(frames: seq<nat>, k: nat): nat
    requires k < ENTRIES * |frames|
  {
    frames[k / ENTRIES] * ENTRIES + k % ENTRIES
  }

  /** The heap frames are distinct, allocated, and no page tables. */
  ghost predicate FramesOwned(frames: seq<nat>, managed: set<nat>, free: set<nat>, tableFrames: set<nat>) {
    && (forall i | 0 <= i < |frames| :: frames[i] in managed && frames[i] !in free && frames[i] !in tableFrames)
    && (forall i, j | 0 <= i < j < |frames| :: frames[i] != frames[j])
  }

  /** Heap page i is mapped to frame i, and the addresses kept for its growth are not mapped. */
  ghost predicate PagesMapped(frames: seq<nat>, pages: Pages) {
    && (forall i | 0 <= i < |frames| :: PageMapped(frames[i], HEAP_VPN + i, pages))
    && (forall v | v in pages :: v < HEAP_VPN + |frames| || HEAP_VPN + MAX_FRAMES <= v)
  }

  ghost predicate PageMapped(frame: nat, vpn: nat, pages: Pages) {
    vpn in pages && pages[vpn] == Page(frame, HEAP_FLAGS)
  }

  ghost predicate WordsMatch(frames: seq<nat>, words: seq<Word>, mem: Memory) {
    && |words| == ENTRIES * |frames|
    && forall k | 0 <= k < |words| :: Cell(frames, k) < |mem| && words[k] == mem[Cell(frames, k)]
  }

  /** Different heap words are different physical words. */
  lemma CellsApart(frames: seq<nat>, k: nat, j: nat)
    requires k < ENTRIES * |frames| && j < ENTRIES * |frames| && k != j
    requires forall i, j | 0 <= i < j < |frames| :: frames[i] != frames[j]
    ensures Cell(frames, k) != Cell(frames, j)
    ensures Cell(frames, k) / ENTRIES == frames[k / ENTRIES]
  {
    assert k == k / ENTRIES * ENTRIES + k % ENTRIES;
    assert j == j / ENTRIES * ENTRIES + j % ENTRIES;
  }

  lemma StoreKeepsWords(frames: seq<nat>, words: seq<Word>, mem: Memory, k: nat, value: Word)
    requires WordsMatch(frames, words, mem) && k < |words|
    requires forall i, j | 0 <= i < j < |frames| :: frames[i] != frames[j]
    ensures WordsMatch(frames, words[k := value], mem[Cell(frames, k) := value])
  {
    forall j | 0 <= j < |words|
      ensures words[k := value][j] == mem[Cell(frames, k) := value][Cell(frames, j)]
    {
      if j != k {
        CellsApart(frames, k, j);
      }
    }
  }

  /** The processor translates a heap address to the word of its frame. */
  lemma HeapTranslation(mem: Memory, root: nat, tables: Tables, pages: Pages, frames: seq<nat>, address: nat)
    requires Represents(mem, root, tables, pages) && PagesMapped(frames, pages) && |frames| <= MAX_FRAMES
    requires KHEAP_START <= address < KHEAP_START + PAGE_SIZE * |frames| && address % 8 == 0
    ensures address < WORD_LIMIT
    ensures var t := Translate(mem, root, address);
            t.Mapped? && t.writable && !t.user && t.executable && t.address / 8 == Cell(frames, (address - KHEAP_START) / 8)
  {
    hide Represents;
    hide Translate;
    hide User;
    hide NoExecute;
    hide Writable;
    var k, offset := (address - KHEAP_START) / PAGE_SIZE, (address - KHEAP_START) % PAGE_SIZE;
    HeapVpn(k, offset);
    TranslationIsLookup(mem, root, tables, pages, address);
    HeapRights();
    assert PageMapped(frames[k], HEAP_VPN + k, pages);
    CellArithmetic(address - KHEAP_START, frames[k]);
  }

  lemma CellArithmetic(a: nat, frame: nat)
    requires a % 8 == 0
    ensures a / 8 / ENTRIES == a / PAGE_SIZE
    ensures (frame * 0x1000 + a % PAGE_SIZE) / 8 == frame * ENTRIES + a / 8 % ENTRIES
  {
    var q := a / 8;
    assert a == 8 * q && q / 512 == a / 4096;
    assert a % 4096 == 8 * (q % 512);
  }

  class KernelMemory {
    const space: V.AddressSpace

    /** `heap_current_end` */
    var end: nat

    ghost var frames: seq<nat>
    ghost var words: seq<Word>

    ghost predicate Valid()
      reads this, space, space.memory, space.pmm, space.pmm.bitmap
    {
      && space.Valid()
      && space.pmm.highestPage <= MAX_FRAMES && 0 !in space.pmm.managed
      && |frames| <= MAX_FRAMES && end == KHEAP_START + PAGE_SIZE * |frames|
      && FramesOwned(frames, space.pmm.managed, space.pmm.free, space.tables.Values)
      && PagesMapped(frames, space.pages)
      && WordsMatch(frames, words, space.memory[..])
    }

    /** The state `kheap_init` starts from. */
    constructor (space: V.AddressSpace)
      requires space.Valid() && space.pmm.highestPage <= MAX_FRAMES && 0 !in space.pmm.managed
      requires forall v | v in space.pages :: v < HEAP_VPN || HEAP_VPN + MAX_FRAMES <= v
      ensures Valid() && this.space == space && words == [] && end == KHEAP_START
    {
      hide Represents;
      this.space := space;
      end := KHEAP_START;
      frames := [];
      words := [];
    }

    /** What a valid heap memory tells about its extent. */
    lemma Extent()
      requires Valid()
      ensures KHEAP_START <= end <= WORD_LIMIT && end % PAGE_SIZE == 0
      ensures |words| == (end - KHEAP_START) / 8
    {
    }

    method Load(address: nat) returns (value: Word)
      requires Valid() && KHEAP_START <= address < end && address % 8 == 0
      ensures WordIndex(address) < |words| && value == words[WordIndex(address)]
    {
      hide Represents;
      hide Translate;
      HeapTranslation(space.memory[..], space.root, space.tables, space.pages, frames, address);
      var t := Translate(space.memory[..], space.root, address);
      value := space.memory[t.address / 8];
    }

    method Store(address: nat, value: Word)
      requires Valid() && KHEAP_START <= address < end && address % 8 == 0
      modifies this`words, space.memory
      ensures Valid()
      ensures WordIndex(address) < |old(words)| && words == old(words)[WordIndex(address) := value]
    {
      hide Represents;
      hide Translate;
      HeapTranslation(space.memory[..], space.root, space.tables, space.pages, frames, address);
      var t := Translate(space.memory[..], space.root, address);
      ghost var k, mem := WordIndex(address), space.memory[..];
      StoreKeepsWords(frames, words, mem, k, value);
      StoreKeepsTree(mem, space.root, space.tables, space.pages, frames, k, value);
      space.memory[t.address / 8] := value;
      words := words[k := value];
      assert space.memory[..] == mem[Cell(frames, k) := value];
    }

    /** One round of the mapping loops: a fresh frame appears at the end of the heap. */
    method AddPage() returns (ok: bool)
      requires Valid()
      modifies this, space`tables, space`pages, space.memory, space.pmm, space.pmm.bitmap
      ensures !ok ==> space.pmm.free == {}
      ensures ok ==> Valid() && end == old(end) + PAGE_SIZE
      ensures ok ==> |words| == |old(words)| + ENTRIES && words[..|old(words)|] == old(words)
    {
      hide V.AddressSpace.Valid;
      hide FramesOwned;
      hide PagesMapped;
      hide WordsMatch;
      hide V.Untouched;
      hide Translate;
      hide User;
      hide Writable;
      hide NoExecute;
      hide At;
      hide Or;
      HeapFlags();
      space.FrameFacts();
      ghost var free0 := space.pmm.free;
      var f;
      ok, f := space.TakeFrame();
      if !ok {
        return;
      }
      RoomForOneMore(frames, f, space.pmm.managed, free0, space.tables.Values, space.pmm.highestPage);
      HeapVpn(|frames|, 0);
      VpnIsFree(frames, space.pages);
      ghost var mem, tableFrames, free := space.memory[..], space.tables.Values, space.pmm.free;
      var r := space.Map(end, f * PAGE_SIZE, HEAP_FLAGS);
      if r != V.Done {
        return false;
      }
      space.FrameFacts();
      ghost var page := space.memory[f * ENTRIES..(f + 1) * ENTRIES];
      FrameAdded(frames, f, space.pmm.managed, free0, tableFrames, space.pmm.free, space.tables.Values);
      MappingAdded(frames, f, old(space.pages));
      WordsAdded(frames, f, words, page, mem, space.memory[..], space.tables.Values, tableFrames, free0, space.pmm.managed);
      frames := frames + [f];
      words := words + page;
      end := end + PAGE_SIZE;
    }
  }

  lemma RoomForOneMore(frames: seq<nat>, f: nat, managed: set<nat>, free: set<nat>, tableFrames: set<nat>, limit: nat)
    requires FramesOwned(frames, managed, free, tableFrames) && f in free && f in managed
    requires forall p | p in managed :: p < limit
    ensures |frames| < limit
  {
    Pigeonhole(frames + [f], limit);
  }

  lemma VpnIsFree(frames: seq<nat>, pages: Pages)
    requires PagesMapped(frames, pages) && |frames| < MAX_FRAMES
    ensures HEAP_VPN + |frames| !in pages
  {
  }

  /** The new frame was free, so it is neither a heap frame nor a table, and new tables came from other free frames. */
  lemma FrameAdded(frames: seq<nat>, f: nat, managed: set<nat>, free: set<nat>, tableFrames: set<nat>,
                   free': set<nat>, tableFrames': set<nat>)
    requires FramesOwned(frames, managed, free, tableFrames)
    requires f in managed && f in free && f !in tableFrames
    requires free' <= free - {f} && tableFrames' <= tableFrames + (free - {f})
    ensures FramesOwned(frames + [f], managed, free', tableFrames')
  {
  }

  lemma MappingAdded(frames: seq<nat>, f: nat, pages: Pages)
    requires PagesMapped(frames, pages) && |frames| < MAX_FRAMES
    ensures PagesMapped(frames + [f], pages[HEAP_VPN + |frames| := Page(f, HEAP_FLAGS)])
  {
    var pages', frames' := pages[HEAP_VPN + |frames| := Page(f, HEAP_FLAGS)], frames + [f];
    forall i | 0 <= i < |frames'|
      ensures PageMapped(frames'[i], HEAP_VPN + i, pages')
    {
      assert i < |frames| ==> PageMapped(frames[i], HEAP_VPN + i, pages);
    }
  }

  /** Mapping another page leaves the heap words where they are and adds those of the page. */
  lemma WordsAdded(frames: seq<nat>, f: nat, words: seq<Word>, page: seq<Word>, mem: Memory, mem': Memory,
                   tableFrames': set<nat>, tableFrames: set<nat>, free: set<nat>, managed: set<nat>)
    requires WordsMatch(frames, words, mem) && FramesOwned(frames, managed, free, tableFrames)
    requires V.Untouched(mem, mem', tableFrames') && tableFrames' <= tableFrames + free
    requires (f + 1) * ENTRIES <= |mem'| && page == mem'[f * ENTRIES..(f + 1) * ENTRIES]
    ensures WordsMatch(frames + [f], words + page, mem')
  {
    forall k | 0 <= k < |words|
      ensures mem'[Cell(frames, k)] == mem[Cell(frames, k)] && Cell(frames + [f], k) == Cell(frames, k)
    {
      assert Cell(frames, k) / ENTRIES == frames[k / ENTRIES];
    }
    forall k | |words| <= k < |words| + ENTRIES
      ensures Cell(frames + [f], k) == f * ENTRIES + (k - |words|)
    {
      assert k / ENTRIES == |frames|;
    }
  }

  lemma StoreKeepsTree(mem: Memory, root: nat, tables: Tables, pages: Pages, frames: seq<nat>, k: nat, value: Word)
    requires Represents(mem, root, tables, pages) && k < ENTRIES * |frames| && Cell(frames, k) < |mem|
    requires forall i | 0 <= i < |frames| :: frames[i] !in tables.Values
    ensures Represents(mem[Cell(frames, k) := value], root, tables, pages)
  {
    assert Cell(frames, k) / ENTRIES == frames[k / ENTRIES];
    assert forall n | n in tables :: tables[n] in tables.Values;
    DataWriteKeeps(mem, root, tables, pages, Cell(frames, k), value);
  }
}
