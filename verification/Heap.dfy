/**
  The kernel heap of mm/heap.c: a doubly linked list of headers in the memory it manages.

  `blocks` is what the list stands for.  Every method is proved to carry out the operation of
  `HeapBlocks` on it and to leave the payload of every other live block alone.  The spinlock
  around the operations is the subject of `Spinlocks`.
 */
module Heap {
  import opened Bits
  import opened Sizes
  import V = Vmm
  import opened HeapMemory
  import opened HeapBlocks
  import opened HeapProperties
  import opened HeapLayout
  import opened HeapCalls

  const SIZE: nat := 0
  const IS_FREE: nat := 8
  const NEXT: nat := 16
  const PREV: nat := 24
  const MAGIC: nat := 32

  const KHEAP_INITIAL_SIZE: nat := 1024 * 1024

  class KernelHeap {
    const mem: KernelMemory

    /** `heap_start` and `heap_tail` */
    var start: nat
    var tail: nat

    ghost var blocks: Blocks

    ghost predicate Valid()
      reads this, mem, mem.space, mem.space.memory, mem.space.pmm, mem.space.pmm.bitmap
    {
      && mem.Valid()
      && Shape(blocks, mem.end)
      && Linked()
    }

    /** The headers are in place for the blocks. */
    ghost predicate Linked()
      reads this, mem
    {
      && |blocks| > 0
      && Laid(mem.words, blocks)
      && start == blocks[0].address
      && tail == blocks[|blocks| - 1].address
    }

    /** The second half of `kheap_init`: one free block over the mapped pages. */
    constructor (mem: KernelMemory)
      requires mem.Valid() && mem.end == KHEAP_START + KHEAP_INITIAL_SIZE
      modifies mem`words, mem.space.memory
      ensures Valid() && this.mem == mem
      ensures blocks == [Block(KHEAP_START, KHEAP_INITIAL_SIZE - HEADER_SIZE, true)]
    {
      hide KernelMemory.Valid;
      this.mem := mem;
      start := KHEAP_START;
      tail := KHEAP_START;
      blocks := [Block(KHEAP_START, KHEAP_INITIAL_SIZE - HEADER_SIZE, true)];
      new;
      InitHeader(KHEAP_START, KHEAP_INITIAL_SIZE - HEADER_SIZE, 0, 0);
    }

    // ---------- header fields ----------

    /** Everything about block i that a header access needs. */
    lemma HeaderFacts(i: nat)
      requires mem.Valid() && Tiles(blocks, mem.end) && Linked() && i < |blocks|
      ensures HeaderOk(mem.words, blocks, i)
      ensures KHEAP_START <= blocks[i].address && blocks[i].address % 8 == 0
      ensures blocks[i].End() <= mem.end && blocks[i].address + HEADER_SIZE <= mem.end
    {
      InBounds(blocks, mem.end, i);
      assert HeaderOk(mem.words, blocks, i);
    }

    /** A store to one field of a header. */
    method WriteField(address: nat, field: nat, value: Word)
      requires mem.Valid() && HeaderFits(mem.words, address) && address % 8 == 0
      requires field % 8 == 0 && field <= MAGIC
      modifies mem`words, mem.space.memory
      ensures mem.Valid() && mem.words == old(mem.words)[WordIndex(address) + field / 8 := value]
    {
      hide KernelMemory.Valid;
      mem.Extent();
      FieldIndex(address, field);
      mem.Store(address + field, value);
    }

    method ReadField(address: nat, field: nat) returns (value: Word)
      requires mem.Valid() && HeaderFits(mem.words, address) && address % 8 == 0
      requires field % 8 == 0 && field <= MAGIC
      ensures value == mem.words[WordIndex(address) + field / 8]
    {
      hide KernelMemory.Valid;
      mem.Extent();
      FieldIndex(address, field);
      value := mem.Load(address + field);
    }

    method ReadSize(address: nat, ghost i: nat) returns (size: Word)
      requires mem.Valid() && Tiles(blocks, mem.end) && Linked() && i < |blocks| && address == blocks[i].address
      ensures size == blocks[i].size
    {
      hide KernelMemory.Valid;
      hide Tiles;
      hide KernelHeap.Linked;
      HeaderFacts(i);
      size := ReadField(address, SIZE);
    }

    method ReadFree(address: nat, ghost i: nat) returns (free: bool)
      requires mem.Valid() && Tiles(blocks, mem.end) && Linked() && i < |blocks| && address == blocks[i].address
      ensures free == blocks[i].free
    {
      hide KernelMemory.Valid;
      hide Tiles;
      hide KernelHeap.Linked;
      HeaderFacts(i);
      var word := ReadField(address, IS_FREE);
      free := word % 256 != 0;
    }

    method ReadNext(address: nat, ghost i: nat) returns (next: Word)
      requires mem.Valid() && Tiles(blocks, mem.end) && Linked() && i < |blocks| && address == blocks[i].address
      ensures next == NextAddress(blocks, i)
    {
      hide KernelMemory.Valid;
      hide Tiles;
      hide KernelHeap.Linked;
      HeaderFacts(i);
      next := ReadField(address, NEXT);
    }

    method ReadPrev(address: nat, ghost i: nat) returns (prev: Word)
      requires mem.Valid() && Tiles(blocks, mem.end) && Linked() && i < |blocks| && address == blocks[i].address
      ensures prev == PrevAddress(blocks, i)
    {
      hide KernelMemory.Valid;
      hide Tiles;
      hide KernelHeap.Linked;
      HeaderFacts(i);
      prev := ReadField(address, PREV);
    }

    method ReadMagic(address: nat, ghost i: nat) returns (magic: Word)
      requires mem.Valid() && Tiles(blocks, mem.end) && Linked() && i < |blocks| && address == blocks[i].address
      ensures magic == HEAP_MAGIC
    {
      hide KernelMemory.Valid;
      hide Tiles;
      hide KernelHeap.Linked;
      HeaderFacts(i);
      magic := ReadField(address, MAGIC);
    }

    /** `block->is_free = v`: one byte of its word. */
    method WriteFree(address: nat, free: bool, ghost i: nat)
      requires mem.Valid() && Tiles(blocks, mem.end) && Linked() && i < |blocks| && address == blocks[i].address
      modifies mem`words, mem.space.memory, this`blocks
      ensures mem.Valid() && Linked() && blocks == old(blocks)[i := old(blocks)[i].(free := free)]
      ensures LiveKept(old(mem.words), mem.words, Live(old(blocks))) && |mem.words| == |old(mem.words)|
    {
      hide KernelMemory.Valid;
      hide LiveKept;
      HeaderFacts(i);
      var word := ReadField(address, IS_FREE);
      var value: Word := word / 256 * 256 + FreeByte(free);
      FlagLaid(mem.words, blocks, mem.end, i, free, value);
      WriteField(address, IS_FREE, value);
      blocks := blocks[i := blocks[i].(free := free)];
    }

    /** A free block's header, in the order of the assignments in the source. */
    method InitHeader(address: nat, size: Word, next: Word, prev: Word)
      requires mem.Valid() && KHEAP_START <= address && address % 8 == 0 && address + HEADER_SIZE <= mem.end
      modifies mem`words, mem.space.memory
      ensures mem.Valid() && HeaderWritten(old(mem.words), mem.words, Block(address, size, true), next, prev)
      ensures |mem.words| == |old(mem.words)|
    {
      hide KernelMemory.Valid;
      hide HeaderAt;
      mem.Extent();
      ghost var words := mem.words;
      WriteField(address, SIZE, size);
      var word := ReadField(address, IS_FREE);
      WriteField(address, IS_FREE, word / 256 * 256 + 1);
      WriteField(address, MAGIC, HEAP_MAGIC);
      WriteField(address, NEXT, next);
      WriteField(address, PREV, prev);
      HeaderStores(words, mem.words, address, size, next, prev, word / 256 * 256 + 1);
    }

    // ---------- find_split_and_alloc ----------

    /** The links around the new block, and the new size of the current one. */
    method LinkRest(current: nat, next: nat, newBlock: Word, n: Word)
      requires mem.Valid() && HeaderFits(mem.words, current) && (next != 0 ==> HeaderFits(mem.words, next))
      requires current % 8 == 0 && next % 8 == 0
      modifies mem`words, mem.space.memory, this`tail
      ensures mem.Valid() && mem.words == SplitStores(old(mem.words), current, next, n, newBlock)
      ensures tail == if next != 0 then old(tail) else newBlock
    {
      hide KernelMemory.Valid;
      mem.Extent();
      if next != 0 {
        WriteField(next, PREV, newBlock);
      } else {
        tail := newBlock;
      }
      WriteField(current, NEXT, newBlock);
      WriteField(current, SIZE, n);
    }

    /** The split of a free block: a header for the rest, and the links around it. */
    method SplitBlock(current: nat, size: nat, n: nat, ghost i: nat)
      requires mem.Valid() && Tiles(blocks, mem.end) && Linked() && i < |blocks|
      requires current == blocks[i].address && size == blocks[i].size && blocks[i].free
      requires size >= n + SPLIT_SLACK && n >= MIN_PAYLOAD && n % 8 == 0
      modifies mem`words, mem.space.memory, this`blocks, this`tail
      ensures mem.Valid() && Linked() && blocks == Cut(old(blocks), i, n)
      ensures LiveKept(old(mem.words), mem.words, Live(old(blocks))) && |mem.words| == |old(mem.words)|
    {
      hide KernelMemory.Valid;
      hide LiveKept;
      hide Live;
      hide Laid;
      hide HeaderAt;
      hide SplitDone;
      hide SplitStores;
      hide HeaderWritten;
      hide HeaderFits;
      hide WordIndex;
      hide Cut;
      hide Tiles;
      hide NextAddress;
      hide PrevAddress;
      mem.Extent();
      CutFacts(blocks, mem.end, i, n);
      ghost var words := mem.words;
      var next := ReadNext(current, i);
      var newBlock := current + HEADER_SIZE + n;
      InitHeader(newBlock, size - n - HEADER_SIZE, next, current);
      SplitStoresAreDone(words, mem.words, blocks, mem.end, i, n, newBlock);
      LinkRest(current, next, newBlock, n);
      SplitLaid(words, mem.words, blocks, mem.end, i, n);
      blocks := Cut(blocks, i, n);
    }

    /** A block that fits is split if it is too large, and taken. */
    method TakeBlock(current: nat, n: nat, ghost i: nat)
      requires Valid() && i < |blocks| && current == blocks[i].address && blocks[i].Fits(n)
      requires MIN_PAYLOAD <= n && n % 8 == 0
      modifies mem`words, mem.space.memory, this`blocks, this`tail
      ensures Valid() && blocks == Take(old(blocks), i, n)
      ensures LiveKept(old(mem.words), mem.words, Live(old(blocks))) && |mem.words| == |old(mem.words)|
    {
      hide KernelMemory.Valid;
      hide LiveKept;
      hide Live;
      hide Laid;
      hide NoFreeNeighbours;
      ghost var words, blocks0 := mem.words, blocks;
      TakeIsCut(blocks, i, n);
      TakeKeepsShape(blocks, mem.end, i, n);
      var size := ReadSize(current, i);
      if size >= n + HEADER_SIZE + MIN_PAYLOAD {
        CutTiles(blocks, mem.end, i, n);
        CutKeepsLive(blocks, i, n);
        SplitBlock(current, size, n, i);
      } else {
        NothingWritten(words, Live(blocks));
      }
      ghost var words1 := mem.words;
      WriteFree(current, false, i);
      LiveKeptTransitive(words, words1, mem.words, Live(blocks0));
    }

    /** The search: the first block that fits is taken.  The panic of the magic check is unreachable. */
    method FindSplitAndAlloc(n: nat) returns (block: nat)
      requires Valid() && MIN_PAYLOAD <= n && n % 8 == 0
      modifies mem`words, mem.space.memory, this`blocks, this`tail
      ensures Valid()
      ensures var i := FirstFit(old(blocks), n);
              if i < |old(blocks)| then block == old(blocks)[i].address && blocks == Take(old(blocks), i, n)
              else block == 0 && blocks == old(blocks)
      ensures LiveKept(old(mem.words), mem.words, Live(old(blocks))) && |mem.words| == |old(mem.words)|
    {
      hide KernelMemory.Valid;
      hide LiveKept;
      hide Live;
      hide Laid;
      hide NoFreeNeighbours;
      hide Tiles;
      var current := start;
      ghost var i := 0;
      while current != 0
        invariant Valid() && i <= |blocks| && blocks == old(blocks)
        invariant current == if i < |blocks| then blocks[i].address else 0
        invariant forall j | 0 <= j < i :: !blocks[j].Fits(n)
        invariant mem.words == old(mem.words)
        decreases |blocks| - i
      {
        AddressesPositive(blocks, mem.end);
        var magic := ReadMagic(current, i);
        if magic != HEAP_MAGIC {
          assert false;
        }
        var free := ReadFree(current, i);
        var size := ReadSize(current, i);
        if free && size >= n {
          TakeBlock(current, n, i);
          return current;
        }
        current := ReadNext(current, i);
        i := i + 1;
      }
      AddressesPositive(blocks, mem.end);
      NothingWritten(mem.words, Live(blocks));
      return 0;
    }

    // ---------- coalescing ----------

    /** The stores of a merge, and the tail if the absorbed block was it. */
    method LinkAbsorbed(left: Word, right: nat, size: Word, next: Word)
      requires mem.Valid() && HeaderFits(mem.words, left) && (next != 0 ==> HeaderFits(mem.words, next))
      requires left % 8 == 0 && next % 8 == 0
      modifies mem`words, mem.space.memory, this`tail
      ensures mem.Valid() && mem.words == MergeStores(old(mem.words), left, size, next)
      ensures tail == if right == old(tail) then left else old(tail)
    {
      hide KernelMemory.Valid;
      mem.Extent();
      WriteField(left, SIZE, size);
      if right == tail {
        tail := left;
      }
      WriteField(left, NEXT, next);
      if next != 0 {
        WriteField(next, PREV, left);
      }
    }

    /** The block at `left` absorbs the one behind it, at `right`. */
    method Absorb(left: nat, right: nat, ghost i: nat)
      requires mem.Valid() && Tiles(blocks, mem.end) && Linked() && i + 1 < |blocks|
      requires left == blocks[i].address && right == blocks[i + 1].address && blocks[i].free && blocks[i + 1].free
      modifies mem`words, mem.space.memory, this`blocks, this`tail
      ensures mem.Valid() && Tiles(blocks, mem.end) && Linked() && blocks == MergeRight(old(blocks), i)
      ensures LiveKept(old(mem.words), mem.words, Live(old(blocks))) && |mem.words| == |old(mem.words)|
    {
      hide KernelMemory.Valid;
      hide LiveKept;
      hide Live;
      hide Laid;
      hide HeaderAt;
      hide MergeDone;
      hide MergeRight;
      hide MergeStores;
      mem.Extent();
      MergeTiles(blocks, mem.end, i);
      HeaderFacts(i);
      ghost var words := mem.words;
      var rightSize := ReadSize(right, i + 1);
      var leftSize := ReadSize(left, i);
      var next := ReadNext(right, i + 1);
      MergeStoresAreDone(words, blocks, mem.end, i, leftSize + HEADER_SIZE + rightSize, left, next);
      MergeLaid(words, MergeStores(words, left, leftSize + HEADER_SIZE + rightSize, next), blocks, mem.end, i);
      LinkAbsorbed(left, right, leftSize + HEADER_SIZE + rightSize, next);
      blocks := MergeRight(blocks, i);
    }

    /** The block joins its left neighbour if that is free too. */
    method CoalesceLeft(block: nat, ghost i: nat)
      requires mem.Valid() && Tiles(blocks, mem.end) && Linked() && i < |blocks|
      requires block == blocks[i].address && blocks[i].free
      modifies mem`words, mem.space.memory, this`blocks, this`tail
      ensures mem.Valid() && Tiles(blocks, mem.end) && Linked()
      ensures blocks == if i > 0 && old(blocks)[i - 1].free then MergeRight(old(blocks), i - 1) else old(blocks)
      ensures LiveKept(old(mem.words), mem.words, Live(old(blocks))) && |mem.words| == |old(mem.words)|
    {
      hide KernelMemory.Valid;
      hide LiveKept;
      hide Live;
      hide Laid;
      hide MergeRight;
      AddressesPositive(blocks, mem.end);
      NothingWritten(mem.words, Live(blocks));
      var prev := ReadPrev(block, i);
      if prev != 0 {
        var free := ReadFree(prev, i - 1);
        if free {
          Absorb(prev, block, i - 1);
        }
      }
    }

    /** The block takes in its right neighbour if that is free too. */
    method CoalesceRight(block: nat, ghost i: nat)
      requires mem.Valid() && Tiles(blocks, mem.end) && Linked() && i < |blocks|
      requires block == blocks[i].address && blocks[i].free
      modifies mem`words, mem.space.memory, this`blocks, this`tail
      ensures mem.Valid() && Tiles(blocks, mem.end) && Linked() && blocks == MergeRight(old(blocks), i)
      ensures LiveKept(old(mem.words), mem.words, Live(old(blocks))) && |mem.words| == |old(mem.words)|
    {
      hide KernelMemory.Valid;
      hide LiveKept;
      hide Live;
      hide Laid;
      AddressesPositive(blocks, mem.end);
      NothingWritten(mem.words, Live(blocks));
      var next := ReadNext(block, i);
      if next != 0 {
        var free := ReadFree(next, i + 1);
        if free {
          Absorb(block, next, i);
        }
      }
    }

    // ---------- heap_expand ----------

    /** The mapping loop: the heap memory grows by whole pages, or physical memory has run out. */
    method MapPages(pages: nat) returns (ok: bool)
      requires mem.Valid() && Laid(mem.words, blocks)
      modifies mem, mem.space`tables, mem.space`pages, mem.space.memory, mem.space.pmm, mem.space.pmm.bitmap
      ensures !ok ==> mem.space.pmm.free == {}
      ensures ok ==> mem.Valid() && mem.end == old(mem.end) + pages * PAGE_SIZE
      ensures ok ==> Laid(mem.words, blocks) && LiveKept(old(mem.words), mem.words, Live(blocks))
      ensures ok ==> |mem.words| >= |old(mem.words)|
    {
      hide KernelMemory.Valid;
      hide Laid;
      hide LiveKept;
      hide Live;
      NothingWritten(mem.words, Live(blocks));
      ghost var words := mem.words;
      for i := 0 to pages
        invariant mem.Valid() && mem.end == old(mem.end) + i * PAGE_SIZE && |mem.words| >= |words|
        invariant Laid(mem.words, blocks) && LiveKept(words, mem.words, Live(blocks))
      {
        ghost var words1 := mem.words;
        ok := mem.AddPage();
        if !ok {
          return;
        }
        MoreWords(words1, mem.words, blocks);
        LiveKeptTransitive(words, words1, mem.words, Live(blocks));
      }
      return true;
    }

    /** A header for the new memory, linked behind the tail.  After `kheap_init` there always is a tail. */
    method AppendBlock(oldEnd: Word, bytes: Word)
      requires mem.Valid() && Tiles(blocks, oldEnd) && Linked() && oldEnd + bytes == mem.end
      requires bytes >= PAGE_SIZE && bytes % 8 == 0
      modifies mem`words, mem.space.memory, this`blocks, this`tail
      ensures mem.Valid() && Linked() && tail == oldEnd
      ensures blocks == old(blocks) + [Block(oldEnd, bytes - HEADER_SIZE, true)]
      ensures LiveKept(old(mem.words), mem.words, Live(old(blocks))) && |mem.words| == |old(mem.words)|
    {
      hide KernelMemory.Valid;
      hide LiveKept;
      hide Live;
      hide Laid;
      hide HeaderAt;
      hide HeaderWritten;
      hide AppendDone;
      hide WordIndex;
      hide HeaderFits;
      mem.Extent();
      ghost var n := |blocks| - 1;
      InBounds(blocks, oldEnd, n);
      ghost var words := mem.words;
      InitHeader(oldEnd, bytes - HEADER_SIZE, 0, tail);
      ghost var words1 := mem.words;
      AppendStoresAreDone(words, words1, blocks, oldEnd, bytes);
      WriteField(tail, NEXT, oldEnd);
      AppendLaid(words, mem.words, blocks, oldEnd, bytes);
      tail := oldEnd;
      blocks := blocks + [Block(oldEnd, bytes - HEADER_SIZE, true)];
    }

    method HeapExpand(n: nat) returns (ok: bool)
      requires Valid() && n <= MAX_REQUEST
      modifies this`blocks, this`tail, mem, mem.space`tables, mem.space`pages
      modifies mem.space.memory, mem.space.pmm, mem.space.pmm.bitmap
      ensures !ok ==> mem.space.pmm.free == {}
      ensures ok ==> Valid() && mem.end == old(mem.end) + PagesNeeded(n) * PAGE_SIZE
      ensures ok ==> PagesNeeded(n) > 0 && blocks == Extend(old(blocks), old(mem.end), PagesNeeded(n) * PAGE_SIZE)
      ensures ok ==> LiveKept(old(mem.words), mem.words, Live(old(blocks))) && |mem.words| >= |old(mem.words)|
    {
      hide KernelMemory.Valid;
      hide LiveKept;
      hide Live;
      hide Laid;
      hide MergeRight;
      hide Extend;
      hide Tiles;
      hide NoFreeNeighbours;
      hide HeaderOk;
      hide NextAddress;
      hide PrevAddress;
      hide PagesNeeded;
      hide WrappedPages;
      GrowthDoesNotWrap(n);
      GrowthIsEnough(n);
      var pages := WrappedPages(n);
      var oldEnd := mem.end;
      ghost var words, blocks0, live := mem.words, blocks, Live(blocks);
      mem.Extent();
      ok := MapPages(pages);
      if !ok {
        return;
      }
      mem.Extent();
      var bytes := pages * PAGE_SIZE;
      ExtendIsMerge(blocks, oldEnd, bytes);
      ExtendKeepsShape(blocks, oldEnd, bytes);
      ghost var words1 := mem.words;
      AppendBlock(oldEnd, bytes);
      LiveKeptTransitive(words, words1, mem.words, live);
      AppendKeepsLive(blocks0, oldEnd, bytes);
      ghost var words2 := mem.words;
      CoalesceLeft(oldEnd, |blocks| - 1);
      LiveKeptTransitive(words, words2, mem.words, live);
    }

    // ---------- the interface ----------

    /** The heap as its clients may think of it. */
    ghost function View(): State
      reads this, mem
    {
      State(blocks, mem.end)
    }

    /** A pointer the client may pass back: the payload of a live block. */
    ghost predicate LivePointer(ptr: nat)
      reads this, mem
    {
      IsLive(View(), ptr)
    }

    ghost function BlockOf(ptr: nat): Block
      requires ptr >= HEADER_SIZE && Find(blocks, ptr - HEADER_SIZE) < |blocks|
      reads this, mem
    {
      BlockAt(View(), ptr)
    }

    /** The search, and after growing the heap once more: it then succeeds. */
    method Allocate(n: nat) returns (ok: bool, block: nat)
      requires Valid() && Request(n)
      modifies this`blocks, this`tail, mem, mem.space`tables, mem.space`pages
      modifies mem.space.memory, mem.space.pmm, mem.space.pmm.bitmap
      ensures !ok ==> mem.space.pmm.free == {}
      ensures FirstFit(old(blocks), n) < |old(blocks)| ==>
                ok && mem.end == old(mem.end) && mem.space.pmm.free == old(mem.space.pmm.free)
      ensures ok ==> Valid() && LiveKept(old(mem.words), mem.words, Live(old(blocks)))
      ensures ok ==> |mem.words| >= |old(mem.words)|
      ensures ok ==> LivePointer(block + HEADER_SIZE)
      ensures ok ==> Mallocs(old(View()), n, View(), BlockOf(block + HEADER_SIZE))
    {
      hide KernelMemory.Valid;
      hide LiveKept;
      hide Live;
      hide Laid;
      hide Tiles;
      hide NoFreeNeighbours;
      hide Extend;
      hide Take;
      hide FirstFit;
      ghost var words, live, view := mem.words, Live(blocks), View();
      MallocBlock(view, n);
      block := FindSplitAndAlloc(n);
      if block == 0 {
        ghost var words0 := mem.words;
        ok := HeapExpand(n);
        if !ok {
          return;
        }
        LiveKeptTransitive(words, words0, mem.words, live);
        ExtendKeepsLive(view.blocks, view.end, GrowthBytes(n));
        ghost var words1 := mem.words;
        block := FindSplitAndAlloc(n);
        LiveKeptTransitive(words, words1, mem.words, live);
      }
      return true, block;
    }

    /** Null for 0 bytes; otherwise the block `Malloc` hands out, unless physical memory runs out (a panic). */
    method Kmalloc(size: Word) returns (ok: bool, ptr: Word)
      requires Valid() && size <= MAX_REQUEST
      modifies this`blocks, this`tail, mem, mem.space`tables, mem.space`pages
      modifies mem.space.memory, mem.space.pmm, mem.space.pmm.bitmap
      ensures !ok ==> mem.space.pmm.free == {}
      ensures ok ==> Valid() && LiveKept(old(mem.words), mem.words, Live(old(blocks)))
      ensures ok ==> |mem.words| >= |old(mem.words)|
      ensures ok && size == 0 ==> ptr == 0 && View() == old(View())
      ensures ok && size > 0 ==> LivePointer(ptr) && Mallocs(old(View()), Align(size), View(), BlockOf(ptr))
      ensures ok && size > 0 ==>
                && size <= BlockOf(ptr).size && BlockOf(ptr) !in Live(old(blocks))
                && Live(blocks) == Live(old(blocks)) + {BlockOf(ptr)}
      ensures size > 0 && (exists b :: b in old(blocks) && b.free && b.size >= Align(size)) ==>
                ok && mem.end == old(mem.end) && mem.space.pmm.free == old(mem.space.pmm.free)
    {
      hide KernelMemory.Valid;
      hide LiveKept;
      hide Live;
      hide Shape;
      hide KernelHeap.Linked;
      hide Mallocs;
      hide Align;
      NothingWritten(mem.words, Live(blocks));
      if size == 0 {
        return true, 0;
      }
      RequestsAlign(size);
      ghost var s := View();
      SomethingFits(blocks, Align(size));
      var block;
      ok, block := Allocate(Align(size));
      if !ok {
        return false, 0;
      }
      PointerFacts(block + HEADER_SIZE);
      FreshFacts(s, Align(size), View(), BlockOf(block + HEADER_SIZE));
      return true, block + HEADER_SIZE;
    }

    /** A live block is freed and joins its free neighbours; null is ignored. */
    method Kfree(ptr: Word)
      requires Valid() && (ptr == 0 || LivePointer(ptr))
      modifies this`blocks, this`tail, mem`words, mem.space.memory
      ensures Valid() && |mem.words| == |old(mem.words)|
      ensures ptr == 0 ==> blocks == old(blocks) && mem.words == old(mem.words)
      ensures ptr != 0 ==> blocks == Release(old(blocks), Find(old(blocks), ptr - HEADER_SIZE))
      ensures ptr != 0 ==> Live(blocks) == Live(old(blocks)) - {old(BlockOf(ptr))}
      ensures LiveKept(old(mem.words), mem.words, Live(blocks))
    {
      hide KernelMemory.Valid;
      hide LiveKept;
      hide Live;
      hide Laid;
      hide Tiles;
      hide NoFreeNeighbours;
      hide MergeRight;
      ghost var words, blocks0 := mem.words, blocks;
      NothingWritten(words, Live(blocks));
      if ptr == 0 {
        return;
      }
      var block := ptr - HEADER_SIZE;
      ghost var i := Find(blocks, block);
      FreedFacts(blocks, mem.end, i);
      var magic := ReadMagic(block, i);
      if magic != HEAP_MAGIC {
        assert false;
      }
      WriteFree(block, true, i);
      ghost var words1, live := mem.words, Live(blocks);
      LiveKeptFewer(words, words1, Live(blocks0), live);
      CoalesceRight(block, i);
      ghost var words2 := mem.words;
      LiveKeptTransitive(words, words1, words2, live);
      CoalesceLeft(block, i);
      LiveKeptTransitive(words, words2, mem.words, live);
    }

    /** A client writes word k of its block. */
    method ClientStore(ptr: nat, k: nat, value: Word, ghost i: nat)
      requires Valid() && i < |blocks| && ptr == blocks[i].Payload() && 8 * k < blocks[i].size
      modifies mem`words, mem.space.memory
      ensures Valid() && ptr >= KHEAP_START && WordIndex(ptr) + k < |old(mem.words)|
      ensures mem.words == old(mem.words)[WordIndex(ptr) + k := value]
      ensures LiveKept(old(mem.words), mem.words, Live(blocks) - {blocks[i]})
    {
      hide KernelMemory.Valid;
      hide LiveKept;
      hide Live;
      hide Laid;
      hide NoFreeNeighbours;
      mem.Extent();
      InBounds(blocks, mem.end, i);
      PayloadAddress(blocks[i], k);
      PayloadWriteKeeps(mem.words, blocks, mem.end, i, WordIndex(ptr) + k, value);
      mem.Store(ptr + 8 * k, value);
    }

    /** `memset(ptr, 0, n)` on a payload; the last word may be cleared in part. */
    method Clear(ptr: nat, n: nat, ghost i: nat)
      requires Valid() && i < |blocks| && ptr == blocks[i].Payload() && n <= blocks[i].size
      modifies mem`words, mem.space.memory
      ensures Valid() && |mem.words| == |old(mem.words)|
      ensures LiveKept(old(mem.words), mem.words, Live(blocks) - {blocks[i]})
      ensures Cleared(mem.words, ptr, n)
    {
      hide KernelMemory.Valid;
      hide LiveKept;
      hide Live;
      hide Shape;
      hide KernelHeap.Linked;
      hide WordIndex;
      ghost var words, live := mem.words, Live(blocks) - {blocks[i]};
      NothingWritten(words, live);
      PayloadBounds(i);
      for k := 0 to n / 8
        invariant Valid() && |mem.words| == |words| && LiveKept(words, mem.words, live)
        invariant forall w | WordIndex(ptr) <= w < WordIndex(ptr) + k :: mem.words[w] == 0
      {
        ghost var words1 := mem.words;
        ClientStore(ptr, k, 0, i);
        LiveKeptTransitive(words, words1, mem.words, live);
      }
      ghost var words1 := mem.words;
      ClearLast(ptr, n / 8, n % 8, i);
      LiveKeptTransitive(words, words1, mem.words, live);
    }

    /** Zero the low bytes of word k, if any. */
    method ClearLast(ptr: nat, k: nat, count: nat, ghost i: nat)
      requires Valid() && i < |blocks| && ptr == blocks[i].Payload()
      requires count > 0 ==> 8 * k < blocks[i].size
      modifies mem`words, mem.space.memory
      ensures Valid() && ptr >= KHEAP_START && |mem.words| == |old(mem.words)|
      ensures LiveKept(old(mem.words), mem.words, Live(blocks) - {blocks[i]})
      ensures forall w: nat | w < |mem.words| && w != WordIndex(ptr) + k :: mem.words[w] == old(mem.words)[w]
      ensures count > 0 ==> WordIndex(ptr) + k < |mem.words| && Low(mem.words[WordIndex(ptr) + k], 8 * count) == 0
    {
      hide KernelMemory.Valid;
      hide LiveKept;
      hide Live;
      hide Shape;
      hide KernelHeap.Linked;
      hide WordIndex;
      NothingWritten(mem.words, Live(blocks) - {blocks[i]});
      PayloadBounds(i);
      if count != 0 {
        var last := LoadPayload(ptr, k, i);
        LowCleared(last, 8 * count);
        ClientStore(ptr, k, Shl(Shr(last, 8 * count), 8 * count), i);
      }
    }

    lemma PayloadBounds(i: nat)
      requires Valid() && i < |blocks|
      ensures blocks[i].address >= KHEAP_START && blocks[i].size % 8 == 0
      ensures WordIndex(blocks[i].Payload()) + blocks[i].size / 8 <= |mem.words|
    {
      hide KernelMemory.Valid;
      mem.Extent();
      InBounds(blocks, mem.end, i);
    }

    method LoadPayload(ptr: nat, k: nat, ghost i: nat) returns (value: Word)
      requires Valid() && i < |blocks| && ptr == blocks[i].Payload() && 8 * k < blocks[i].size
      ensures ptr >= KHEAP_START && WordIndex(ptr) + k < |mem.words| && value == mem.words[WordIndex(ptr) + k]
    {
      hide KernelMemory.Valid;
      InBounds(blocks, mem.end, i);
      PayloadAddress(blocks[i], k);
      value := mem.Load(ptr + 8 * k);
    }

    /** `memcpy` from one payload to another, in whole words. */
    method CopyPayload(to: nat, from: nat, count: nat, ghost i: nat, ghost j: nat)
      requires Valid() && i < |blocks| && j < |blocks| && i != j
      requires to == blocks[i].Payload() && from == blocks[j].Payload()
      requires count * 8 <= blocks[i].size && count * 8 <= blocks[j].size
      modifies mem`words, mem.space.memory
      ensures Valid() && |mem.words| == |old(mem.words)|
      ensures LiveKept(old(mem.words), mem.words, Live(blocks) - {blocks[i]})
      ensures Copied(old(mem.words), mem.words, to, from, count)
    {
      hide KernelMemory.Valid;
      hide LiveKept;
      hide Live;
      hide Laid;
      hide NoFreeNeighbours;
      hide Tiles;
      hide Copied;
      hide SourceKept;
      hide InPayload;
      hide WordIndex;
      ghost var words, live := mem.words, Live(blocks) - {blocks[i]};
      NothingWritten(words, live);
      mem.Extent();
      CopyFacts(blocks, mem.end, i, j, count);
      CopyStarts(words, to, from, count);
      for k := 0 to count
        invariant Valid() && |mem.words| == |words|
        invariant LiveKept(words, mem.words, live)
        invariant Copied(words, mem.words, to, from, k)
        invariant SourceKept(words, mem.words, from, count)
      {
        ghost var words1 := mem.words;
        var value := LoadPayload(from, k, j);
        CopyStep(words, words1, to, from, count, k);
        ClientStore(to, k, value, i);
        LiveKeptTransitive(words, words1, mem.words, live);
      }
    }

    /** The growing case of `krealloc`: a new block, the whole old payload copied, the old block freed. */
    method Move(ptr: Word, newSize: Word) returns (ok: bool, r: Word)
      requires Valid() && LivePointer(ptr) && BlockOf(ptr).size < newSize <= MAX_REQUEST
      modifies this`blocks, this`tail, mem, mem.space`tables, mem.space`pages
      modifies mem.space.memory, mem.space.pmm, mem.space.pmm.bitmap
      ensures !ok ==> mem.space.pmm.free == {}
      ensures ok ==> Valid() && LivePointer(r)
      ensures ok ==> Moves(old(View()), Align(newSize), old(BlockOf(ptr)), View(), BlockOf(r))
      ensures ok ==> Copied(old(mem.words), mem.words, r, ptr, old(BlockOf(ptr)).size / 8)
      ensures ok ==> newSize <= BlockOf(r).size
      ensures ok ==> Live(blocks) == Live(old(blocks)) - {old(BlockOf(ptr))} + {BlockOf(r)}
      ensures ok ==> LiveKept(old(mem.words), mem.words, Live(old(blocks)) - {old(BlockOf(ptr))})
      ensures ok ==> |mem.words| >= |old(mem.words)|
    {
      hide KernelMemory.Valid;
      hide LiveKept;
      hide Live;
      hide Shape;
      hide Tiles;
      hide KernelHeap.Linked;
      hide Mallocs;
      hide Moves;
      hide Align;
      hide Copied;
      hide Release;
      ghost var s0, words0, b := View(), mem.words, BlockOf(ptr);
      RequestsAlign(newSize);
      PointerFacts(ptr);
      ok, r := Kmalloc(newSize);
      if !ok {
        return;
      }
      ghost var s1, words1, nb := View(), mem.words, BlockOf(r);
      PointerFacts(r);
      MoveFacts(s0, Align(newSize), b, s1, nb);
      var size := SizeOf(ptr);
      if r != 0 {
        CopyPayload(r, ptr, (if size < newSize then size else newSize) / 8, Find(blocks, r - HEADER_SIZE), Find(blocks, ptr - HEADER_SIZE));
        ghost var words2 := mem.words;
        Kfree(ptr);
        MovedSet(Live(s0.blocks), b, nb);
        MovedLive(words0, words1, words2, mem.words, Live(s0.blocks), Live(s1.blocks), b, nb);
        MovedData(words0, words1, words2, mem.words, Live(s0.blocks), Live(s1.blocks), b, nb);
      }
    }

    /** A live pointer is the payload of a live block, within the heap. */
    lemma PointerFacts(ptr: nat)
      requires Valid() && LivePointer(ptr)
      ensures BlockOf(ptr) in Live(blocks) && BlockOf(ptr).Payload() == ptr && BlockOf(ptr).size % 8 == 0
      ensures BlockOf(ptr).address >= KHEAP_START && BlockOf(ptr).address % 8 == 0
      ensures WordIndex(ptr) + BlockOf(ptr).size / 8 <= |mem.words| && ptr < WORD_LIMIT
    {
      hide KernelMemory.Valid;
      mem.Extent();
      InBounds(blocks, mem.end, Find(blocks, ptr - HEADER_SIZE));
    }

    /** `block->size` for a pointer of the client. */
    method SizeOf(ptr: Word) returns (size: Word)
      requires Valid() && LivePointer(ptr)
      ensures size == BlockOf(ptr).size && size % 8 == 0
    {
      hide KernelMemory.Valid;
      hide Laid;
      size := ReadSize(ptr - HEADER_SIZE, Find(blocks, ptr - HEADER_SIZE));
    }

    /** As for `realloc`: see the cases of the contract. */
    method Krealloc(ptr: Word, newSize: Word) returns (ok: bool, r: Word)
      requires Valid() && (ptr == 0 || LivePointer(ptr)) && newSize <= MAX_REQUEST
      modifies this`blocks, this`tail, mem, mem.space`tables, mem.space`pages
      modifies mem.space.memory, mem.space.pmm, mem.space.pmm.bitmap
      ensures !ok ==> mem.space.pmm.free == {}
      ensures ok ==> Valid() && (r != 0 <==> newSize != 0) && (r != 0 ==> LivePointer(r))
      ensures ok && ptr == 0 && newSize == 0 ==> View() == old(View())
      ensures ok && ptr == 0 && newSize != 0 ==> Mallocs(old(View()), Align(newSize), View(), BlockOf(r))
      ensures ok && ptr != 0 && newSize == 0 ==> Frees(old(View()), old(BlockOf(ptr)), View())
      ensures ok && ptr != 0 && 0 < newSize <= old(BlockOf(ptr)).size ==>
                r == ptr && View() == old(View()) && mem.words == old(mem.words)
      ensures ok && ptr != 0 && newSize > old(BlockOf(ptr)).size ==>
                && Moves(old(View()), Align(newSize), old(BlockOf(ptr)), View(), BlockOf(r))
                && Copied(old(mem.words), mem.words, r, ptr, old(BlockOf(ptr)).size / 8)
      ensures ok ==> LiveKept(old(mem.words), mem.words, Live(old(blocks)) - (if ptr == 0 then {} else {old(BlockOf(ptr))}))
      ensures ok ==> |mem.words| >= |old(mem.words)|
      ensures ok && newSize != 0 ==> newSize <= BlockOf(r).size
      ensures ok && ptr != 0 && newSize > old(BlockOf(ptr)).size ==>
                && Live(blocks) == Live(old(blocks)) - {old(BlockOf(ptr))} + {BlockOf(r)}
                && var n := old(BlockOf(ptr)).size / 8;
                   && r >= KHEAP_START && ptr >= KHEAP_START
                   && WordIndex(r) + n <= |mem.words| && WordIndex(ptr) + n <= |old(mem.words)|
                   && mem.words[WordIndex(r)..WordIndex(r) + n] == old(mem.words)[WordIndex(ptr)..WordIndex(ptr) + n]
    {
      hide KernelMemory.Valid;
      hide LiveKept;
      hide Live;
      hide Shape;
      hide KernelHeap.Linked;
      hide Mallocs;
      hide Moves;
      hide Release;
      hide Align;
      NothingWritten(mem.words, Live(blocks) - (if ptr == 0 then {} else {BlockOf(ptr)}));
      if ptr == 0 {
        assert Live(blocks) - {} == Live(blocks);
        ok, r := Kmalloc(newSize);
        return;
      }
      PointerFacts(ptr);
      if newSize == 0 {
        Kfree(ptr);
        return true, 0;
      }
      var size := SizeOf(ptr);
      if size >= newSize {
        return true, ptr;
      }
      ok, r := Move(ptr, newSize);
    }

    /** Null if the product overflows; otherwise as `kmalloc`, with the bytes zero. */
    method Kcalloc(num: Word, size: Word, ghost product: nat) returns (ok: bool, ptr: Word)
      requires Valid() && product == num * size && (product <= MAX_REQUEST || product >= WORD_LIMIT)
      modifies this`blocks, this`tail, mem, mem.space`tables, mem.space`pages
      modifies mem.space.memory, mem.space.pmm, mem.space.pmm.bitmap
      ensures !ok ==> mem.space.pmm.free == {}
      ensures ok ==> Valid() && LiveKept(old(mem.words), mem.words, Live(old(blocks)))
      ensures ok ==> |mem.words| >= |old(mem.words)|
      ensures ok ==> (ptr == 0 <==> product == 0 || product >= WORD_LIMIT)
      ensures ok && ptr == 0 ==> View() == old(View())
      ensures ok && ptr != 0 ==> LivePointer(ptr) && Mallocs(old(View()), Align(product), View(), BlockOf(ptr))
      ensures ok && ptr != 0 ==> Cleared(mem.words, ptr, product)
      ensures ok && ptr != 0 ==>
                && product <= BlockOf(ptr).size && ptr >= KHEAP_START && WordIndex(ptr) + (product + 7) / 8 <= |mem.words|
                && (forall w | WordIndex(ptr) <= w < WordIndex(ptr) + product / 8 :: mem.words[w] == 0)
                && (product % 8 != 0 ==> Low(mem.words[WordIndex(ptr) + product / 8], 8 * (product % 8)) == 0)
    {
      hide KernelMemory.Valid;
      hide LiveKept;
      hide Live;
      hide Shape;
      hide KernelHeap.Linked;
      hide Mallocs;
      hide Align;
      ghost var words, s := mem.words, View();
      NothingWritten(words, Live(blocks));
      OverflowCheck(num, size);
      if size != 0 && num > (WORD_LIMIT - 1) / size {
        return true, 0;
      }
      var total := num * size;
      ok, ptr := Kmalloc(total);
      if ok && ptr != 0 {
        ghost var words1 := mem.words;
        RequestsAlign(total);
        PointerFacts(ptr);
        FreshFacts(s, Align(total), View(), BlockOf(ptr));
        Clear(ptr, total, Find(blocks, ptr - HEADER_SIZE));
        LiveKeptFewer(words1, mem.words, Live(blocks) - {BlockOf(ptr)}, Live(s.blocks));
        LiveKeptTransitive(words, words1, mem.words, Live(s.blocks));
      }
    }

    // ---------- runs ----------

    /** One call of a client, or one write to its own block; false is the panic when physical memory runs out. */
    method Do(c: Call) returns (ok: bool)
      requires Valid() && Permitted(View(), c)
      modifies this`blocks, this`tail, mem, mem.space`tables, mem.space`pages
      modifies mem.space.memory, mem.space.pmm, mem.space.pmm.bitmap
      ensures !ok ==> mem.space.pmm.free == {}
      ensures ok ==> Valid() && View() == Effect(old(View()), c) && |mem.words| >= |old(mem.words)|
      ensures ok ==> LiveKept(old(mem.words), mem.words, Live(old(blocks)) - Owned(old(View()), c))
    {
      hide KernelMemory.Valid;
      hide LiveKept;
      hide Live;
      hide Shape;
      hide KernelHeap.Linked;
      hide Mallocs;
      hide Moves;
      hide Frees;
      hide Copied;
      hide Cleared;
      hide Release;
      hide Align;
      ghost var s, words, live := View(), mem.words, Live(blocks) - Owned(View(), c);
      ok := true;
      match c {
        case Kmalloc(size) =>
          var ptr;
          ok, ptr := Kmalloc(size);
          if ok {
            MallocEffect(s, size, View());
            LiveKeptFewer(words, mem.words, Live(s.blocks), live);
          }
        case Kfree(ptr) =>
          Kfree(ptr);
          if ptr == 0 {
            NothingWritten(words, live);
          }
        case Krealloc(ptr, size) =>
          var r;
          ok, r := Krealloc(ptr, size);
          if ok {
            ReallocEffect(s, ptr, size, View());
            if mem.words == words {
              NothingWritten(words, live);
            }
          }
        case Kcalloc(num, size) =>
          var ptr;
          ok, ptr := Kcalloc(num, size, num * size);
          if ok {
            CallocEffect(s, num, size, View());
            LiveKeptFewer(words, mem.words, Live(s.blocks), live);
          }
        case Store(ptr, k, value) =>
          ClientStore(ptr, k, value, Find(blocks, ptr - HEADER_SIZE));
      }
    }

    /** Any run of calls and writes: a live block that nobody frees or writes stays there, word for word. */
    method Execute(calls: seq<Call>) returns (ok: bool)
      requires Valid() && AllPermitted(View(), calls)
      modifies this`blocks, this`tail, mem, mem.space`tables, mem.space`pages
      modifies mem.space.memory, mem.space.pmm, mem.space.pmm.bitmap
      ensures !ok ==> mem.space.pmm.free == {}
      ensures ok ==> Valid() && View() == Effects(old(View()), calls) && |mem.words| >= |old(mem.words)|
      ensures ok ==> AloneKept(old(mem.words), mem.words, old(View()), calls)
      ensures ok ==> forall b | b in Live(old(blocks)) && (forall c | c in calls :: !Names(c, b)) ::
                       b in Live(blocks) && PayloadKept(old(mem.words), mem.words, b)
      decreases |calls|
    {
      hide KernelMemory.Valid;
      hide KernelHeap.Linked;
      hide Shape;
      hide Live;
      hide LiveKept;
      hide Effect;
      hide Owned;
      hide Permitted;
      hide AloneKept;
      ghost var s, words := View(), mem.words;
      if calls == [] {
        NoCalls(words, s);
        UnnamedKept(words, words, s, calls);
        return true;
      }
      ok := Do(calls[0]);
      if ok {
        ghost var words1 := mem.words;
        ok := Execute(calls[1..]);
        if ok {
          OneMoreCall(words, words1, mem.words, s, calls);
          UnnamedKept(words, mem.words, s, calls);
        }
      }
    }

    /** The counting loop of `kheap_print_stats`: with its headers, every byte of the heap is counted. */
    method CountBytes() returns (used: nat, usedBlocks: nat, free: nat, freeBlocks: nat)
      requires Valid()
      ensures used == Bytes(blocks, false) && free == Bytes(blocks, true)
      ensures used + free + 40 * (usedBlocks + freeBlocks) == mem.end - KHEAP_START
    {
      hide KernelMemory.Valid;
      hide Laid;
      hide Tiles;
      hide NoFreeNeighbours;
      AddressesPositive(blocks, mem.end);
      BytesAddUp(blocks, mem.end);
      used, usedBlocks, free, freeBlocks := 0, 0, 0, 0;
      var current := start;
      ghost var i := 0;
      while current != 0
        invariant i <= |blocks| && current == if i < |blocks| then blocks[i].address else 0
        invariant used == Bytes(blocks[..i], false) && free == Bytes(blocks[..i], true)
        invariant usedBlocks + freeBlocks == i
        decreases |blocks| - i
      {
        assert blocks[..i + 1][..i] == blocks[..i];
        var isFree := ReadFree(current, i);
        var size := ReadSize(current, i);
        if isFree {
          free := free + size;
          freeBlocks := freeBlocks + 1;
        } else {
          used := used + size;
          usedBlocks := usedBlocks + 1;
        }
        current := ReadNext(current, i);
        i := i + 1;
      }
      assert blocks[..i] == blocks;
    }
  }

  /** `kheap_init`: 256 pages, and one free block over them. */
  method KheapInit(space: V.AddressSpace) returns (ok: bool, heap: KernelHeap?)
    requires space.Valid() && space.pmm.highestPage <= MAX_FRAMES && 0 !in space.pmm.managed
    requires forall v | v in space.pages :: v < HEAP_VPN || HEAP_VPN + MAX_FRAMES <= v
    modifies space`tables, space`pages, space.memory, space.pmm, space.pmm.bitmap
    ensures !ok ==> space.pmm.free == {}
    ensures ok ==> heap != null && fresh(heap) && fresh(heap.mem) && heap.Valid() && heap.mem.space == space
    ensures ok ==> heap.View() == State([Block(0xffff_a000_0000_0000, 1024 * 1024 - 40, true)], 0xffff_a000_0010_0000)
  {
    hide KernelMemory.Valid;
    hide V.AddressSpace.Valid;
    hide KernelHeap.Valid;
    heap := null;
    var mem := new KernelMemory(space);
    for i := 0 to KHEAP_INITIAL_SIZE / PAGE_SIZE
      invariant fresh(mem) && mem.space == space && mem.Valid()
      invariant mem.end == KHEAP_START + i * PAGE_SIZE
    {
      ok := mem.AddPage();
      if !ok {
        return;
      }
    }
    heap := new KernelHeap(mem);
    ok := true;
  }

  lemma FieldIndex(address: nat, field: nat)
    requires address >= KHEAP_START && address % 8 == 0 && field % 8 == 0
    ensures WordIndex(address + field) == WordIndex(address) + field / 8 && (address + field) % 8 == 0
  {
    MultiplesOf8(address, KHEAP_START);
    MultiplesOf8(address - KHEAP_START, field);
    MultiplesOf8(address, field);
  }

  /** The new block of a split lies in the heap. */
  lemma CutFacts(blocks: Blocks, end: nat, i: nat, n: nat)
    requires Tiles(blocks, end) && i < |blocks| && blocks[i].size >= n + SPLIT_SLACK && n % 8 == 0
    ensures KHEAP_START <= blocks[i].address && blocks[i].address % 8 == 0 && blocks[i].size % 8 == 0
    ensures blocks[i].End() <= end && NextAddress(blocks, i) % 8 == 0
    ensures var newBlock := blocks[i].address + HEADER_SIZE + n;
            newBlock % 8 == 0 && newBlock + HEADER_SIZE <= end
    ensures var r := Cut(blocks, i, n);
            && |r| == |blocks| + 1
            && r[i + 1] == Block(blocks[i].address + HEADER_SIZE + n, blocks[i].size - n - HEADER_SIZE, true)
            && r[0].address == blocks[0].address
            && r[|r| - 1].address == (if i + 1 < |blocks| then blocks[|blocks| - 1].address else r[i + 1].address)
            && (NextAddress(blocks, i) != 0 <==> i + 1 < |blocks|)
  {
    InBounds(blocks, end, i);
    if i + 1 < |blocks| {
      InBounds(blocks, end, i + 1);
    }
  }

  lemma HeaderStores(words: Words, words': Words, address: nat, size: Word, next: Word, prev: Word, flag: Word)
    requires address >= KHEAP_START && address % 8 == 0 && flag % 256 == 1
    requires WordIndex(address) + 5 <= |words|
    requires var k := WordIndex(address);
             words' == words[k := size][k + 1 := flag][k + 4 := HEAP_MAGIC][k + 2 := next][k + 3 := prev]
    ensures HeaderWritten(words, words', Block(address, size, true), next, prev)
  {
  }

  lemma AddressesPositive(blocks: Blocks, end: nat)
    requires Tiles(blocks, end)
    ensures forall i | 0 <= i < |blocks| :: blocks[i].address > 0
  {
    forall i | 0 <= i < |blocks|
      ensures blocks[i].address > 0
    {
      InBounds(blocks, end, i);
    }
  }

  lemma NothingWritten(words: Words, live: set<Block>)
    ensures LiveKept(words, words, live)
  {
  }

  lemma MergeTiles(blocks: Blocks, end: nat, i: nat)
    requires Tiles(blocks, end) && i + 1 < |blocks| && blocks[i].free && blocks[i + 1].free
    ensures var r := MergeRight(blocks, i);
            && Tiles(r, end) && |r| == |blocks| - 1
            && r[0].address == blocks[0].address && r[|r| - 1].address ==
               (if i + 2 < |blocks| then blocks[|blocks| - 1].address else blocks[i].address)
    ensures blocks[i].size + HEADER_SIZE + blocks[i + 1].size <= end
    ensures blocks[i].address < blocks[i + 1].address
    ensures i + 2 < |blocks| ==> blocks[i + 1].address < blocks[|blocks| - 1].address
    ensures var next := NextAddress(blocks, i + 1);
            next == 0 || (KHEAP_START <= next && next + HEADER_SIZE <= end && next % 8 == 0)
  {
    assert blocks[i := blocks[i].(free := true)] == blocks;
    MergeOnTheRight(blocks, end, i);
    SpliceTiles(blocks, end, i, i + 2);
    InBounds(blocks, end, i);
    InBounds(blocks, end, i + 1);
    Touching(blocks, end, i);
    if i + 2 < |blocks| {
      InBounds(blocks, end, i + 2);
      InOrder(blocks, end, i + 1, |blocks| - 1);
    }
  }

  lemma AppendStoresAreDone(words: Words, words1: Words, blocks: Blocks, end: Word, bytes: nat)
    requires Tiles(blocks, end) && Laid(words, blocks) && bytes > HEADER_SIZE && end % 8 == 0
    requires HeaderWritten(words, words1, Block(end, bytes - HEADER_SIZE, true), 0, blocks[|blocks| - 1].address)
    ensures HeaderFits(words1, blocks[|blocks| - 1].address)
    ensures AppendDone(words, words1[WordIndex(blocks[|blocks| - 1].address) + 2 := end], blocks, end, bytes)
  {
    var n := |blocks| - 1;
    assert HeaderOk(words, blocks, n);
    WordsOfBlock(blocks, end, n);
    InBounds(blocks, end, n);
  }

  lemma AppendKeepsLive(blocks: Blocks, end: nat, bytes: nat)
    requires bytes > HEADER_SIZE
    ensures Live(blocks + [Block(end, bytes - HEADER_SIZE, true)]) == Live(blocks)
  {
  }

  lemma LiveKeptFewer(words: Words, words': Words, live: set<Block>, fewer: set<Block>)
    requires LiveKept(words, words', live) && fewer <= live
    ensures LiveKept(words, words', fewer)
  {
  }

  /** What freeing block i needs to know before the first store. */
  lemma FreedFacts(blocks: Blocks, end: nat, i: nat)
    requires Shape(blocks, end) && i < |blocks| && !blocks[i].free
    ensures var freed := blocks[i := blocks[i].(free := true)];
            && Tiles(freed, end) && Live(freed) == Live(blocks) - {blocks[i]}
            && Live(MergeRight(freed, i)) == Live(freed)
            && i < |MergeRight(freed, i)| && MergeRight(freed, i)[i].address == blocks[i].address
            && MergeRight(freed, i)[i].free
    ensures Shape(Release(blocks, i), end) && Live(Release(blocks, i)) == Live(blocks) - {blocks[i]}
  {
    var freed := blocks[i := blocks[i].(free := true)];
    FreeingRemovesLive(blocks, end, i);
    if i + 1 < |blocks| && blocks[i + 1].free {
      MergeKeepsLiveSet(freed, i);
    }
    ReleaseKeepsShape(blocks, end, i);
    ReleaseRemovesLive(blocks, end, i);
  }

  // ---------- copying a payload ----------

  /** The first words at `from` are now also those at `to`. */
  ghost predicate Copied(words: Words, words': Words, to: nat, from: nat, count: nat) {
    && to >= KHEAP_START && from >= KHEAP_START
    && var a, b := WordIndex(to), WordIndex(from);
    && a + count <= |words'| && b + count <= |words|
    && words'[a..a + count] == words[b..b + count]
  }

  ghost predicate SourceKept(words: Words, words': Words, from: nat, count: nat) {
    && from >= KHEAP_START
    && var b := WordIndex(from);
    && b + count <= |words'| && b + count <= |words|
    && words'[b..b + count] == words[b..b + count]
  }

  lemma CopyStarts(words: Words, to: nat, from: nat, count: nat)
    requires to >= KHEAP_START && from >= KHEAP_START
    requires WordIndex(to) <= |words| && WordIndex(from) + count <= |words|
    ensures Copied(words, words, to, from, 0) && SourceKept(words, words, from, count)
  {
  }

  lemma CopyStep(words: Words, words1: Words, to: nat, from: nat, count: nat, k: nat)
    requires Copied(words, words1, to, from, k) && SourceKept(words, words1, from, count)
    requires k < count && |words1| == |words| && WordIndex(to) + count <= |words|
    requires WordIndex(to) + count <= WordIndex(from) || WordIndex(from) + count <= WordIndex(to)
    ensures WordIndex(from) + k < |words|
    ensures var words2 := words1[WordIndex(to) + k := words1[WordIndex(from) + k]];
            Copied(words, words2, to, from, k + 1) && SourceKept(words, words2, from, count)
  {
    var a, b := WordIndex(to), WordIndex(from);
    var words2 := words1[a + k := words1[b + k]];
    assert words1[b + k] == words1[b..b + count][k] && words[b + k] == words[b..b + count][k];
    assert words2[a..a + k + 1] == words1[a..a + k] + [words1[b + k]];
    assert words[b..b + k + 1] == words[b..b + k] + [words[b + k]];
    assert words2[b..b + count] == words1[b..b + count];
  }

  lemma PayloadAddress(b: Block, k: nat)
    requires b.address >= KHEAP_START && b.address % 8 == 0 && b.size % 8 == 0 && 8 * k < b.size
    ensures InPayload(b, WordIndex(b.Payload()) + k)
    ensures WordIndex(b.Payload() + 8 * k) == WordIndex(b.Payload()) + k
    ensures (b.Payload() + 8 * k) % 8 == 0 && b.Payload() + 8 * k < b.End()
  {
  }

  lemma CopyFacts(blocks: Blocks, end: nat, i: nat, j: nat, count: nat)
    requires Tiles(blocks, end) && i < |blocks| && j < |blocks| && i != j
    requires count * 8 <= blocks[i].size && count * 8 <= blocks[j].size
    ensures blocks[i].address >= KHEAP_START && blocks[j].address >= KHEAP_START
    ensures blocks[i].address % 8 == 0 && blocks[j].address % 8 == 0
    ensures blocks[i].End() <= end && blocks[j].End() <= end
    ensures var a, b := WordIndex(blocks[i].Payload()), WordIndex(blocks[j].Payload());
            && (a + count <= b || b + count <= a)
            && a + count <= (end - KHEAP_START) / 8 && b + count <= (end - KHEAP_START) / 8
  {
    InBounds(blocks, end, i);
    InBounds(blocks, end, j);
    InOrder(blocks, end, if i < j then i else j, if i < j then j else i);
  }

  // ---------- moving a block ----------

  lemma MovedSet(live: set<Block>, b: Block, b': Block)
    requires b in live && b' !in live
    ensures live + {b'} - {b} == live - {b} + {b'}
  {
  }

  lemma MovedLive(words0: Words, words1: Words, words2: Words, words3: Words, live0: set<Block>, live1: set<Block>,
                  b: Block, b': Block)
    requires |words0| <= |words1| <= |words2| <= |words3|
    requires live1 == live0 + {b'} && b in live0 && b' !in live0
    requires LiveKept(words0, words1, live0) && LiveKept(words1, words2, live1 - {b'}) && LiveKept(words2, words3, live1 - {b})
    ensures LiveKept(words0, words3, live0 - {b})
  {
    LiveKeptFewer(words0, words1, live0, live0 - {b});
    LiveKeptFewer(words1, words2, live1 - {b'}, live0 - {b});
    LiveKeptFewer(words2, words3, live1 - {b}, live0 - {b});
    LiveKeptTransitive(words0, words1, words2, live0 - {b});
    LiveKeptTransitive(words0, words2, words3, live0 - {b});
  }

  /** What was copied is what the old block held at first, and is there in the end. */
  lemma MovedData(words0: Words, words1: Words, words2: Words, words3: Words, live0: set<Block>, live1: set<Block>,
                  b: Block, b': Block)
    requires |words0| <= |words1| == |words2| == |words3|
    requires b in live0 && b' in live1 && b' != b
    requires LiveKept(words0, words1, live0) && LiveKept(words2, words3, live1 - {b})
    requires Copied(words1, words2, b'.Payload(), b.Payload(), b.size / 8) && b.size <= b'.size
    requires b.address >= KHEAP_START && b'.address >= KHEAP_START && b.address % 8 == 0 && b'.address % 8 == 0
    requires WordIndex(b.Payload()) + b.size / 8 <= |words0|
    ensures Copied(words0, words3, b'.Payload(), b.Payload(), b.size / 8)
  {
    assert PayloadKept(words0, words1, b) && PayloadKept(words2, words3, b');
    PayloadSlice(words0, words1, b, b.size / 8);
    PayloadSlice(words2, words3, b', b.size / 8);
  }

  lemma PayloadSlice(words: Words, words': Words, b: Block, n: nat)
    requires PayloadKept(words, words', b) && b.address >= KHEAP_START && b.address % 8 == 0
    requires n * 8 <= b.size && WordIndex(b.Payload()) + n <= |words| <= |words'|
    ensures words'[WordIndex(b.Payload())..WordIndex(b.Payload()) + n] == words[WordIndex(b.Payload())..WordIndex(b.Payload()) + n]
  {
    forall w: nat | WordIndex(b.Payload()) <= w < WordIndex(b.Payload()) + n
      ensures words'[w] == words[w]
    {
      assert InPayload(b, w);
    }
  }

  // ---------- zeroed memory ----------

  /** The n bytes at ptr are 0: whole words, and the low bytes of the last one. */
  ghost predicate Cleared(words: Words, ptr: nat, n: nat) {
    && ptr >= KHEAP_START
    && var a := WordIndex(ptr);
    && a + n / 8 <= |words|
    && (forall w | a <= w < a + n / 8 :: words[w] == 0)
    && (n % 8 != 0 ==> a + n / 8 < |words| && Low(words[a + n / 8], 8 * (n % 8)) == 0)
  }

  /** Clearing the low k bits of a word. */
  lemma {:induction false} LowCleared(x: nat, k: nat)
    ensures Low(Shl(Shr(x, k), k), k) == 0 && Shl(Shr(x, k), k) <= x
    decreases k
  {
    if k > 0 {
      LowCleared(x / 2, k - 1);
    }
  }

  lemma OverflowCheck(num: Word, size: Word)
    ensures size != 0 && num > (WORD_LIMIT - 1) / size <==> num * size >= WORD_LIMIT
  {
    if size != 0 {
      var q := (WORD_LIMIT - 1) / size;
      assert q * size <= WORD_LIMIT - 1 < (q + 1) * size;
      if num > q {
        assert num * size >= (q + 1) * size;
      } else {
        assert num * size <= q * size;
      }
    }
  }

  lemma FreshFacts(s: State, n: nat, s': State, b: Block)
    requires Good(s) && Request(n) && Mallocs(s, n, s', b)
    ensures b.size >= n && Live(s'.blocks) - {b} == Live(s.blocks)
    ensures b !in Live(s.blocks) && Live(s'.blocks) == Live(s.blocks) + {b}
  {
    MallocGrants(s, n);
    MallocKeepsLive(s, n);
  }
}
