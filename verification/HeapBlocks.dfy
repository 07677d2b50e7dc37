/**
  The kernel heap of mm/heap.c as a sequence of blocks in address order: first fit, splitting,
  coalescing and growth, and what they mean for the client.  `Heap` proves that the linked
  headers in memory carry out exactly these operations.
 */
module HeapBlocks {
  import opened Bits
  import opened Sizes
  import opened HeapMemory

  const HEADER_SIZE: nat := 40
  const MIN_PAYLOAD: nat := 16
  const KHEAP_MIN_SIZE: nat := 4096

  /** A block that leaves less than this is not split. */
  const SPLIT_SLACK: nat := HEADER_SIZE + MIN_PAYLOAD

  datatype Block = Block(address: nat, size: nat, free: bool) {
    function Payload(): nat {
      address + HEADER_SIZE
    }

    function End(): nat {
      address + HEADER_SIZE + size
    }

    predicate Fits(n: nat) {
      free && size >= n
    }
  }

  type Blocks = seq<Block>

  /** The largest request for which no addition in `kmalloc` and `heap_expand` wraps (see `GrowthDoesNotWrap`). */
  const MAX_REQUEST: nat := WORD_LIMIT - 4144

  /** `(n + 15) & ~15` */
  function Align(n: Word): nat {
    And((n + 15) % WORD_LIMIT, 0xFFFF_FFFF_FFFF_FFF0)
  }

  /** Rounding up to a multiple of 16 works exactly for the sizes that do not wrap. */
  lemma AlignRoundsUp(n: Word)
    ensures Align(n) % 16 == 0
    ensures n <= Align(n) <==> n <= WORD_LIMIT - 16
    ensures n <= WORD_LIMIT - 16 ==> Align(n) < n + 16
  {
    var m := if n + 15 < WORD_LIMIT then n + 15 else n + 15 - WORD_LIMIT;
    WrapOnce(n + 15);
    Align16(m);
  }

  lemma WrapOnce(x: nat)
    requires x < 2 * WORD_LIMIT
    ensures x % WORD_LIMIT == if x < WORD_LIMIT then x else x - WORD_LIMIT
  {
  }

  // ---------- the shape of the heap ----------

  /** The blocks cover the heap exactly, in address order. */
  ghost predicate Tiles(blocks: Blocks, end: nat) {
    && |blocks| > 0
    && blocks[0].address == KHEAP_START
    && (forall i | 0 <= i < |blocks| - 1 :: blocks[i + 1].address == blocks[i].End())
    && blocks[|blocks| - 1].End() == end
    && (forall i | 0 <= i < |blocks| :: blocks[i].size >= MIN_PAYLOAD && blocks[i].size % 8 == 0)
  }

  ghost predicate NoFreeNeighbours(blocks: Blocks) {
    forall i | 0 <= i < |blocks| - 1 :: !(blocks[i].free && blocks[i + 1].free)
  }

  ghost predicate Shape(blocks: Blocks, end: nat) {
    Tiles(blocks, end) && NoFreeNeighbours(blocks)
  }

  /** Blocks do not overlap. */
  lemma {:induction false} InOrder(blocks: Blocks, end: nat, i: nat, j: nat)
    requires Tiles(blocks, end) && i < j < |blocks|
    ensures blocks[i].End() <= blocks[j].address
    decreases j - i
  {
    if i + 1 < j {
      InOrder(blocks, end, i, j - 1);
    }
  }

  /** Every block lies between the start and the end of the heap, 8-aligned. */
  lemma {:induction false} InBounds(blocks: Blocks, end: nat, i: nat)
    requires Tiles(blocks, end) && i < |blocks|
    ensures KHEAP_START <= blocks[i].address && blocks[i].End() <= end && blocks[i].address % 8 == 0
    decreases i
  {
    if i > 0 {
      InBounds(blocks, end, i - 1);
    }
    if i < |blocks| - 1 {
      InOrder(blocks, end, i, |blocks| - 1);
    }
  }

  // ---------- the operations ----------

  /** The position of the first free block that fits, or |blocks|. */
  function FirstFit(blocks: Blocks, n: nat): (i: nat)
    ensures i <= |blocks|
    ensures i < |blocks| ==> blocks[i].Fits(n)
    ensures forall j | 0 <= j < i :: !blocks[j].Fits(n)
  {
    FirstFitFrom(blocks, n, 0)
  }

  function FirstFitFrom(blocks: Blocks, n: nat, from: nat): (i: nat)
    requires from <= |blocks|
    ensures from <= i <= |blocks|
    ensures i < |blocks| ==> blocks[i].Fits(n)
    ensures forall j | from <= j < i :: !blocks[j].Fits(n)
    decreases |blocks| - from
  {
    if from == |blocks| || blocks[from].Fits(n) then from else FirstFitFrom(blocks, n, from + 1)
  }

  /** Block i is allocated for n bytes; a large enough rest becomes a free block of its own. */
  function Take(blocks: Blocks, i: nat, n: nat): Blocks
    requires i < |blocks| && blocks[i].Fits(n)
  {
    var b := blocks[i];
    if b.size >= n + SPLIT_SLACK then
      blocks[..i] + [Block(b.address, n, false), Block(b.Payload() + n, b.size - n - HEADER_SIZE, true)] + blocks[i + 1..]
    else
      blocks[i := b.(free := false)]
  }

  /** Block i is cut in two behind its first n bytes. */
  function Cut(blocks: Blocks, i: nat, n: nat): Blocks
    requires i < |blocks| && blocks[i].size >= n + SPLIT_SLACK
  {
    var b := blocks[i];
    blocks[..i] + [b.(size := n), Block(b.Payload() + n, b.size - n - HEADER_SIZE, true)] + blocks[i + 1..]
  }

  function PagesNeeded(n: nat): nat {
    var total := if n + HEADER_SIZE < KHEAP_MIN_SIZE then KHEAP_MIN_SIZE else n + HEADER_SIZE;
    (total + PAGE_SIZE - 1) / PAGE_SIZE
  }

  /** `pages_needed`, as `heap_expand` computes it in 64 bits. */
  function WrappedPages(n: Word): nat {
    var sum := (n + HEADER_SIZE) % WORD_LIMIT;
    var total := if sum < KHEAP_MIN_SIZE then KHEAP_MIN_SIZE else sum;
    (total + PAGE_SIZE - 1) % WORD_LIMIT / PAGE_SIZE
  }

  /** The heap grows by enough pages up to MAX_REQUEST, and for larger aligned sizes it does not. */
  lemma GrowthDoesNotWrap(n: Word)
    ensures n <= MAX_REQUEST ==> WrappedPages(n) == PagesNeeded(n) && n + HEADER_SIZE <= WrappedPages(n) * PAGE_SIZE
    ensures n > MAX_REQUEST && n % 16 == 0 ==> WrappedPages(n) < PagesNeeded(n) && WrappedPages(n) * PAGE_SIZE < n
  {
    WrapOnce(n + HEADER_SIZE);
    var sum := (n + HEADER_SIZE) % WORD_LIMIT;
    WrapOnce((if sum < KHEAP_MIN_SIZE then KHEAP_MIN_SIZE else sum) + PAGE_SIZE - 1);
  }

  /** The heap grows at its end by some pages, which join a free last block. */
  function Extend(blocks: Blocks, end: nat, bytes: nat): Blocks
    requires |blocks| > 0 && bytes > HEADER_SIZE
  {
    var last := blocks[|blocks| - 1];
    if last.free then blocks[|blocks| - 1 := last.(size := last.size + bytes)]
    else blocks + [Block(end, bytes - HEADER_SIZE, true)]
  }

  /** Block i absorbs its right neighbour if that is free. */
  function MergeRight(blocks: Blocks, i: nat): Blocks
    requires i < |blocks|
  {
    if i + 1 < |blocks| && blocks[i + 1].free then
      blocks[..i] + [blocks[i].(size := blocks[i].size + HEADER_SIZE + blocks[i + 1].size)] + blocks[i + 2..]
    else blocks
  }

  /** Block i is freed and coalesced on both sides. */
  function Release(blocks: Blocks, i: nat): Blocks
    requires i < |blocks|
  {
    var merged := MergeRight(blocks[i := blocks[i].(free := true)], i);
    if i > 0 && merged[i - 1].free then MergeRight(merged, i - 1) else merged
  }

  // ---------- the shape is kept ----------

  lemma TakeKeepsShape(blocks: Blocks, end: nat, i: nat, n: nat)
    requires Shape(blocks, end) && i < |blocks| && blocks[i].Fits(n)
    requires n >= MIN_PAYLOAD && n % 8 == 0
    ensures Shape(Take(blocks, i, n), end)
  {
    var r := Take(blocks, i, n);
    if blocks[i].size >= n + SPLIT_SLACK {
      forall j | 0 <= j < |r|
        ensures r[j].size >= MIN_PAYLOAD && r[j].size % 8 == 0
        ensures j + 1 < |r| ==> r[j + 1].address == r[j].End() && !(r[j].free && r[j + 1].free)
        ensures j + 1 == |r| ==> r[j].End() == end
      {
        if j > i {
          assert j > i + 1 ==> r[j] == blocks[j - 1];
          assert j + 1 < |r| ==> r[j + 1] == blocks[j];
          if j + 1 < |r| {
            Touching(blocks, end, j - 1);
          }
        } else if j < i {
          Touching(blocks, end, j);
        }
      }
    }
  }

  lemma CutTiles(blocks: Blocks, end: nat, i: nat, n: nat)
    requires Tiles(blocks, end) && i < |blocks| && blocks[i].size >= n + SPLIT_SLACK
    requires n >= MIN_PAYLOAD && n % 8 == 0
    ensures Tiles(Cut(blocks, i, n), end)
  {
    var r := Cut(blocks, i, n);
    forall j | 0 <= j < |r|
      ensures r[j].size >= MIN_PAYLOAD && r[j].size % 8 == 0
      ensures if j + 1 < |r| then r[j + 1].address == r[j].End() else r[j].End() == end
    {
      if j > i {
        assert j > i + 1 ==> r[j] == blocks[j - 1];
        assert j + 1 < |r| ==> r[j + 1] == blocks[j];
        if j + 1 < |r| {
          Touching(blocks, end, j - 1);
        }
      } else if j < i {
        Touching(blocks, end, j);
      }
    }
  }

  lemma TakeIsCut(blocks: Blocks, i: nat, n: nat)
    requires i < |blocks| && blocks[i].Fits(n)
    ensures var cut := if blocks[i].size >= n + SPLIT_SLACK then Cut(blocks, i, n) else blocks;
            Take(blocks, i, n) == cut[i := cut[i].(free := false)]
  {
  }

  /** Growing is appending a free block and merging it with a free last block. */
  lemma ExtendIsMerge(blocks: Blocks, end: nat, bytes: nat)
    requires Tiles(blocks, end) && bytes >= PAGE_SIZE && bytes % 8 == 0
    ensures var appended := blocks + [Block(end, bytes - HEADER_SIZE, true)];
            && Tiles(appended, end + bytes)
            && Extend(blocks, end, bytes) ==
               if blocks[|blocks| - 1].free then MergeRight(appended, |blocks| - 1) else appended
  {
    var n := |blocks| - 1;
    var appended := blocks + [Block(end, bytes - HEADER_SIZE, true)];
    assert appended[..n] == blocks[..n] && appended[n + 2..] == [];
    assert blocks == blocks[..n] + [blocks[n]];
  }

  lemma ExtendKeepsShape(blocks: Blocks, end: nat, bytes: nat)
    requires Shape(blocks, end) && bytes >= PAGE_SIZE && bytes % 8 == 0
    ensures Shape(Extend(blocks, end, bytes), end + bytes)
  {
  }

  /** The blocks from a up to but not including b are replaced by one. */
  function Splice(blocks: Blocks, a: nat, b: nat, m: Block): Blocks
    requires a < b <= |blocks|
  {
    blocks[..a] + [m] + blocks[b..]
  }

  lemma SpliceAt(blocks: Blocks, a: nat, b: nat, m: Block, j: nat)
    requires a < b <= |blocks| && j < |blocks| - (b - a) + 1
    ensures |Splice(blocks, a, b, m)| == |blocks| - (b - a) + 1
    ensures Splice(blocks, a, b, m)[j] == if j < a then blocks[j] else if j == a then m else blocks[j + (b - a - 1)]
  {
  }

  /** The run of blocks that freeing block i turns into one free block: first and one past last. */
  function RunStart(blocks: Blocks, i: nat): (a: nat)
    requires i < |blocks|
    ensures a <= i
  {
    if i > 0 && blocks[i - 1].free then i - 1 else i
  }

  function RunEnd(blocks: Blocks, i: nat): (b: nat)
    requires i < |blocks|
    ensures i < b <= |blocks|
  {
    if i + 1 < |blocks| && blocks[i + 1].free then i + 2 else i + 1
  }

  function Joined(blocks: Blocks, a: nat, b: nat): Block
    requires a < b <= |blocks| && blocks[b - 1].End() >= blocks[a].Payload()
  {
    Block(blocks[a].address, blocks[b - 1].End() - blocks[a].Payload(), true)
  }

  lemma MergeOnTheRight(blocks: Blocks, end: nat, i: nat)
    requires Tiles(blocks, end) && i < |blocks|
    ensures var b := RunEnd(blocks, i);
            && blocks[b - 1].End() >= blocks[i].End()
            && MergeRight(blocks[i := blocks[i].(free := true)], i) == Splice(blocks, i, b, Joined(blocks, i, b))
  {
    var freed := blocks[i := blocks[i].(free := true)];
    if i + 1 < |blocks| {
      assert blocks[i + 1].address == blocks[i].End();
      assert blocks[i + 1].free ==> freed[i + 2..] == blocks[i + 2..];
    }
    assert freed[..i] == blocks[..i];
    assert freed == blocks[..i] + [freed[i]] + blocks[i + 1..];
  }

  lemma MergeOnTheLeft(blocks: Blocks, end: nat, i: nat, b: nat)
    requires Tiles(blocks, end) && 0 < i < b <= |blocks| && blocks[i - 1].free && blocks[b - 1].End() >= blocks[i].End()
    ensures blocks[b - 1].End() >= blocks[i - 1].End()
    ensures MergeRight(Splice(blocks, i, b, Joined(blocks, i, b)), i - 1) ==
            Splice(blocks, i - 1, b, Joined(blocks, i - 1, b))
  {
    var merged := Splice(blocks, i, b, Joined(blocks, i, b));
    assert blocks[i - 1 + 1].address == blocks[i - 1].End();
    assert merged[..i - 1] == blocks[..i - 1] && merged[i + 1..] == blocks[b..];
    assert merged[i - 1] == blocks[i - 1] && merged[i] == Joined(blocks, i, b);
  }

  /** Freeing a block makes one free block of exactly the bytes of its run. */
  lemma ReleaseIsSplice(blocks: Blocks, end: nat, i: nat)
    requires Tiles(blocks, end) && i < |blocks|
    ensures var a, b := RunStart(blocks, i), RunEnd(blocks, i);
            && blocks[b - 1].End() >= blocks[a].End()
            && Release(blocks, i) == Splice(blocks, a, b, Joined(blocks, a, b))
  {
    MergeOnTheRight(blocks, end, i);
    if i > 0 && blocks[i - 1].free {
      MergeOnTheLeft(blocks, end, i, RunEnd(blocks, i));
    }
  }

  lemma Touching(blocks: Blocks, end: nat, i: nat)
    requires Tiles(blocks, end) && i + 1 < |blocks|
    ensures blocks[i + 1].address == blocks[i].End()
  {
  }

  /** The joined block begins and ends where its run does. */
  lemma JoinedFits(blocks: Blocks, end: nat, a: nat, b: nat)
    requires Tiles(blocks, end) && a < b <= |blocks| && blocks[b - 1].End() >= blocks[a].End()
    ensures var m := Joined(blocks, a, b);
            m.address == blocks[a].address && m.End() == blocks[b - 1].End() && m.size >= MIN_PAYLOAD && m.size % 8 == 0
  {
    hide Tiles;
    SizesAre(blocks, end, a);
    SizesAre(blocks, end, b - 1);
    MultiplesOf8(blocks[a].address, HEADER_SIZE);
    MultiplesOf8(blocks[b - 1].address, HEADER_SIZE);
    MultiplesOf8(blocks[b - 1].address + HEADER_SIZE, blocks[b - 1].size);
    MultiplesOf8(blocks[b - 1].End(), blocks[a].Payload());
  }

  lemma SizesAre(blocks: Blocks, end: nat, i: nat)
    requires Tiles(blocks, end) && i < |blocks|
    ensures blocks[i].address % 8 == 0 && blocks[i].size % 8 == 0 && blocks[i].size >= MIN_PAYLOAD
  {
    InBounds(blocks, end, i);
  }

  lemma SpliceTiles(blocks: Blocks, end: nat, a: nat, b: nat)
    requires Tiles(blocks, end) && a < b <= |blocks| && blocks[b - 1].End() >= blocks[a].End()
    ensures Tiles(Splice(blocks, a, b, Joined(blocks, a, b)), end)
  {
    hide Splice;
    var m := Joined(blocks, a, b);
    var r := Splice(blocks, a, b, m);
    JoinedFits(blocks, end, a, b);
    SpliceAt(blocks, a, b, m, 0);
    forall j | 0 <= j < |r| - 1
      ensures r[j + 1].address == r[j].End()
    {
      SpliceAt(blocks, a, b, m, j);
      SpliceAt(blocks, a, b, m, j + 1);
      if j < a {
        Touching(blocks, end, j);
      } else {
        Touching(blocks, end, j + (b - a - 1));
      }
    }
    forall j | 0 <= j < |r|
      ensures r[j].size >= MIN_PAYLOAD && r[j].size % 8 == 0
    {
      SpliceAt(blocks, a, b, m, j);
    }
    SpliceAt(blocks, a, b, m, |r| - 1);
  }

  lemma SpliceNoFreeNeighbours(blocks: Blocks, a: nat, b: nat, m: Block)
    requires NoFreeNeighbours(blocks) && a < b <= |blocks|
    requires a > 0 ==> !blocks[a - 1].free
    requires b < |blocks| ==> !blocks[b].free
    ensures NoFreeNeighbours(Splice(blocks, a, b, m))
  {
    var r := Splice(blocks, a, b, m);
    forall i | 0 <= i < |r| - 1
      ensures !(r[i].free && r[i + 1].free)
    {
      if i + 1 > a + 1 {
        assert r[i + 1] == blocks[i + b - a] && r[i] == blocks[i - 1 + b - a];
      }
    }
  }

  lemma ReleaseKeepsShape(blocks: Blocks, end: nat, i: nat)
    requires Shape(blocks, end) && i < |blocks|
    ensures Shape(Release(blocks, i), end)
  {
    var a, b := RunStart(blocks, i), RunEnd(blocks, i);
    ReleaseIsSplice(blocks, end, i);
    SpliceTiles(blocks, end, a, b);
    SpliceNoFreeNeighbours(blocks, a, b, Joined(blocks, a, b));
  }
}
