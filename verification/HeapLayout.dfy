/**
  The blocks of the heap as they lie in memory: a doubly linked list of 40-byte headers, each
  in front of its payload.  Field offsets follow `block_header_t` (mm/heap.c).
 */
module HeapLayout {
  import opened Bits
  import opened Sizes
  import opened HeapMemory
  import opened HeapBlocks
  import opened HeapProperties

  const HEAP_MAGIC: nat := 0xC0FF_EE12_3456_7890

  type Words = seq<Word>

  /** `is_free` is one byte; the other seven bytes of its word are padding. */
  function FreeByte(free: bool): nat {
    if free then 1 else 0
  }

  function NextAddress(blocks: Blocks, i: nat): nat
    requires i < |blocks|
  {
    if i + 1 < |blocks| then blocks[i + 1].address else 0
  }

  function PrevAddress(blocks: Blocks, i: nat): nat
    requires i < |blocks|
  {
    if i > 0 then blocks[i - 1].address else 0
  }

  ghost predicate HeaderAt(words: Words, b: Block, next: nat, prev: nat) {
    && b.address >= KHEAP_START
    && var k := WordIndex(b.address);
    && k + 5 <= |words|
    && words[k] == b.size
    && words[k + 1] % 256 == FreeByte(b.free)
    && words[k + 2] == next
    && words[k + 3] == prev
    && words[k + 4] == HEAP_MAGIC
  }

  ghost predicate HeaderOk(words: Words, blocks: Blocks, i: nat)
    requires i < |blocks|
  {
    HeaderAt(words, blocks[i], NextAddress(blocks, i), PrevAddress(blocks, i))
  }

  ghost predicate Laid(words: Words, blocks: Blocks) {
    forall i | 0 <= i < |blocks| :: HeaderOk(words, blocks, i)
  }

  /** The words of a block's header, of its payload, and of all of it. */
  predicate InHeader(b: Block, w: nat) {
    b.address >= KHEAP_START && WordIndex(b.address) <= w < WordIndex(b.address) + 5
  }

  predicate InPayload(b: Block, w: nat) {
    b.address >= KHEAP_START && WordIndex(b.address) + 5 <= w < WordIndex(b.address) + 5 + b.size / 8
  }

  /** The client's data in block b is untouched. */
  ghost predicate PayloadKept(words: Words, words': Words, b: Block) {
    forall w: nat | InPayload(b, w) && w < |words| && w < |words'| :: words'[w] == words[w]
  }

  ghost predicate LiveKept(words: Words, words': Words, live: set<Block>) {
    forall b | b in live :: PayloadKept(words, words', b)
  }

  /** In plain words: every 8 bytes of the payload, 40 bytes behind the start of the block, are as they were. */
  lemma LiveKeptMeans(words: Words, words': Words, live: set<Block>, b: Block, k: nat)
    requires LiveKept(words, words', live) && b in live && b.address >= KHEAP_START && b.address % 8 == 0
    requires 8 * k + 8 <= b.size && (b.address + 40 + 8 * k - KHEAP_START) / 8 < |words| <= |words'|
    ensures var w := (b.address + 40 + 8 * k - KHEAP_START) / 8;
            words'[w] == words[w]
  {
    assert PayloadKept(words, words', b);
    MultiplesOf8(b.address, KHEAP_START);
    MultiplesOf8(b.address - KHEAP_START, 40 + 8 * k);
    assert InPayload(b, (b.address + 40 + 8 * k - KHEAP_START) / 8);
  }

  // ---------- where words lie ----------

  /** In words: a block is its 5 header words and its payload, and the next one follows at once. */
  lemma WordsOfBlock(blocks: Blocks, end: nat, i: nat)
    requires Tiles(blocks, end) && i < |blocks|
    ensures blocks[i].address >= KHEAP_START && blocks[i].address % 8 == 0 && blocks[i].size % 8 == 0
    ensures i + 1 < |blocks| ==>
              blocks[i + 1].address >= KHEAP_START
              && WordIndex(blocks[i + 1].address) == WordIndex(blocks[i].address) + 5 + blocks[i].size / 8
    ensures WordIndex(blocks[i].address) + 5 + blocks[i].size / 8 <= (end - KHEAP_START) / 8
    ensures end >= KHEAP_START
  {
    InBounds(blocks, end, i);
    if i + 1 < |blocks| {
      Touching(blocks, end, i);
    }
  }

  /** Words of different blocks are different. */
  lemma BlocksApart(blocks: Blocks, end: nat, i: nat, j: nat, w: nat)
    requires Tiles(blocks, end) && i < |blocks| && j < |blocks| && i != j
    requires InHeader(blocks[i], w) || InPayload(blocks[i], w)
    ensures !InHeader(blocks[j], w) && !InPayload(blocks[j], w)
  {
    var a, b := if i < j then i else j, if i < j then j else i;
    InOrder(blocks, end, a, b);
    WordsOfBlock(blocks, end, a);
    WordsOfBlock(blocks, end, b);
  }

  /** A word of a header, or of a free block, belongs to no live payload. */
  lemma NoLiveWord(blocks: Blocks, end: nat, i: nat, w: nat, b: Block)
    requires Tiles(blocks, end) && i < |blocks| && b in Live(blocks)
    requires InHeader(blocks[i], w) || (blocks[i].free && InPayload(blocks[i], w))
    ensures !InPayload(b, w)
  {
    var j :| 0 <= j < |blocks| && blocks[j] == b;
    if i != j {
      BlocksApart(blocks, end, i, j, w);
    }
  }

  /** A header whose words have not changed is still there. */
  lemma HeaderKept(words: Words, words': Words, b: Block, next: nat, prev: nat)
    requires HeaderAt(words, b, next, prev) && |words| <= |words'|
    requires forall w: nat | InHeader(b, w) :: words'[w] == words[w]
    ensures HeaderAt(words', b, next, prev)
  {
  }

  // ---------- splitting ----------

  /** The words written when block i is split: two headers and the back link of the next block. */
  predicate SplitWord(blocks: Blocks, t: Blocks, i: nat, w: nat)
    requires i < |blocks| && i + 1 < |t|
  {
    InHeader(t[i], w) || InHeader(t[i + 1], w) ||
    (i + 1 < |blocks| && InHeader(blocks[i + 1], w) && w == WordIndex(blocks[i + 1].address) + 3)
  }

  ghost predicate SplitDone(words: Words, words': Words, blocks: Blocks, i: nat, n: nat)
    requires i < |blocks| && blocks[i].size >= n + SPLIT_SLACK
  {
    var t := Cut(blocks, i, n);
    && |words'| == |words|
    && HeaderAt(words', t[i], t[i + 1].address, PrevAddress(blocks, i))
    && HeaderAt(words', t[i + 1], NextAddress(blocks, i), t[i].address)
    && (i + 1 < |blocks| ==> HeaderAt(words', blocks[i + 1], NextAddress(blocks, i + 1), t[i + 1].address))
    && forall w: nat | w < |words| && !SplitWord(blocks, t, i, w) :: words'[w] == words[w]
  }

  /** An address at which a header fits into the heap words. */
  predicate HeaderFits(words: Words, address: nat) {
    address >= KHEAP_START && WordIndex(address) + 5 <= |words|
  }

  /** The stores of a split after the new header has been written: the back link of the next block, then the current one. */
  function SplitStores(words: Words, current: nat, next: nat, n: Word, newBlock: Word): (r: Words)
    requires HeaderFits(words, current) && (next != 0 ==> HeaderFits(words, next))
    ensures |r| == |words|
  {
    var words2 := if next != 0 then words[WordIndex(next) + 3 := newBlock] else words;
    words2[WordIndex(current) + 2 := newBlock][WordIndex(current) := n]
  }

  /** The words after the header of a new free block has been written. */
  ghost predicate HeaderWritten(words: Words, words': Words, b: Block, next: nat, prev: nat) {
    && |words'| == |words|
    && HeaderAt(words', b, next, prev)
    && forall w: nat | w < |words| && !InHeader(b, w) :: words'[w] == words[w]
  }

  lemma SplitStoresAreDone(words: Words, words1: Words, blocks: Blocks, end: nat, i: nat, n: Word, newBlock: Word)
    requires Tiles(blocks, end) && Laid(words, blocks) && i < |blocks| && blocks[i].size >= n + SPLIT_SLACK && n % 8 == 0
    requires newBlock == Cut(blocks, i, n)[i + 1].address
    requires HeaderWritten(words, words1, Cut(blocks, i, n)[i + 1], NextAddress(blocks, i), blocks[i].address)
    ensures HeaderFits(words1, blocks[i].address)
    ensures NextAddress(blocks, i) != 0 ==> HeaderFits(words1, NextAddress(blocks, i))
    ensures SplitDone(words, SplitStores(words1, blocks[i].address, NextAddress(blocks, i), n, newBlock), blocks, i, n)
  {
    hide HeaderAt;
    hide Tiles;
    hide Laid;
    SplitFacts(words, blocks, end, i, n);
    var t := Cut(blocks, i, n);
    SplitStoresHeaders(words, words1, blocks[i], t[i + 1], NextAddress(blocks, i), PrevAddress(blocks, i), n, newBlock);
    if i + 1 < |blocks| {
      SplitStoresNext(words, words1, blocks[i], t[i + 1], blocks[i + 1], NextAddress(blocks, i + 1), n, newBlock);
    }
  }

  /** The headers around a split and where their words are. */
  lemma SplitFacts(words: Words, blocks: Blocks, end: nat, i: nat, n: nat)
    requires Tiles(blocks, end) && Laid(words, blocks) && i < |blocks| && blocks[i].size >= n + SPLIT_SLACK && n % 8 == 0
    ensures HeaderOk(words, blocks, i) && HeaderFits(words, blocks[i].address)
    ensures i + 1 < |blocks| ==> HeaderOk(words, blocks, i + 1) && HeaderFits(words, blocks[i + 1].address)
    ensures var r := Cut(blocks, i, n)[i + 1];
            && r.address >= KHEAP_START && WordIndex(blocks[i].address) + 5 <= WordIndex(r.address)
            && (i + 1 < |blocks| ==> WordIndex(r.address) + 5 <= WordIndex(blocks[i + 1].address))
  {
    assert HeaderOk(words, blocks, i) && (i + 1 < |blocks| ==> HeaderOk(words, blocks, i + 1));
    WordsOfBlock(blocks, end, i);
    SplitIndexes(blocks, i, n);
  }

  lemma SplitIndexes(blocks: Blocks, i: nat, n: nat)
    requires i < |blocks| && blocks[i].address >= KHEAP_START && blocks[i].address % 8 == 0
    requires blocks[i].size >= n + SPLIT_SLACK && n % 8 == 0 && blocks[i].size % 8 == 0
    ensures var r := Cut(blocks, i, n)[i + 1];
            && r.address >= KHEAP_START && WordIndex(r.address) == WordIndex(blocks[i].address) + 5 + n / 8
            && WordIndex(r.address) + 5 + r.size / 8 == WordIndex(blocks[i].address) + 5 + blocks[i].size / 8
  {
  }

  /** The current header and the new one after the stores of a split. */
  lemma SplitStoresHeaders(words: Words, words1: Words, b: Block, r: Block, next: nat, prev: nat, n: Word, newBlock: Word)
    requires HeaderAt(words, b, next, prev) && HeaderWritten(words, words1, r, next, b.address)
    requires newBlock == r.address && WordIndex(b.address) + 5 <= WordIndex(r.address)
    requires next != 0 ==> HeaderFits(words, next) && WordIndex(r.address) + 5 <= WordIndex(next)
    ensures HeaderAt(SplitStores(words1, b.address, next, n, newBlock), b.(size := n), newBlock, prev)
    ensures HeaderAt(SplitStores(words1, b.address, next, n, newBlock), r, next, b.address)
  {
  }

  /** The header behind the split block. */
  lemma SplitStoresNext(words: Words, words1: Words, b: Block, r: Block, c: Block, next: nat, n: Word, newBlock: Word)
    requires HeaderAt(words, c, next, b.address) && HeaderWritten(words, words1, r, c.address, b.address)
    requires HeaderFits(words, b.address) && WordIndex(b.address) + 5 <= WordIndex(r.address)
    requires WordIndex(r.address) + 5 <= WordIndex(c.address)
    ensures HeaderAt(SplitStores(words1, b.address, c.address, n, newBlock), c, next, newBlock)
  {
  }

  /** The words written by a split lie in block i and in the header behind it. */
  lemma SplitWordsLie(blocks: Blocks, end: nat, i: nat, n: nat, w: nat)
    requires Tiles(blocks, end) && i < |blocks| && blocks[i].size >= n + SPLIT_SLACK && n % 8 == 0
    requires SplitWord(blocks, Cut(blocks, i, n), i, w)
    ensures InHeader(blocks[i], w) || InPayload(blocks[i], w) || (i + 1 < |blocks| && InHeader(blocks[i + 1], w))
  {
    WordsOfBlock(blocks, end, i);
  }

  lemma SplitKeepsHeader(words: Words, words': Words, blocks: Blocks, end: nat, i: nat, n: nat, j: nat)
    requires Tiles(blocks, end) && Laid(words, blocks) && i < |blocks| && blocks[i].size >= n + SPLIT_SLACK && n % 8 == 0
    requires SplitDone(words, words', blocks, i, n)
    requires j < |blocks| && j != i && j != i + 1
    ensures HeaderOk(words', blocks, j)
  {
    assert HeaderOk(words, blocks, j);
    forall w: nat | InHeader(blocks[j], w)
      ensures words'[w] == words[w]
    {
      BlocksApart(blocks, end, j, i, w);
      if i + 1 < |blocks| {
        BlocksApart(blocks, end, j, i + 1, w);
      }
      if SplitWord(blocks, Cut(blocks, i, n), i, w) {
        SplitWordsLie(blocks, end, i, n, w);
      }
    }
    HeaderKept(words, words', blocks[j], NextAddress(blocks, j), PrevAddress(blocks, j));
  }

  lemma SplitLaid(words: Words, words': Words, blocks: Blocks, end: nat, i: nat, n: nat)
    requires i < |blocks| && blocks[i].free
    requires Tiles(blocks, end) && Laid(words, blocks) && i < |blocks| && blocks[i].size >= n + SPLIT_SLACK && n % 8 == 0
    requires SplitDone(words, words', blocks, i, n)
    ensures Laid(words', Cut(blocks, i, n))
    ensures LiveKept(words, words', Live(blocks))
  {
    hide HeaderAt;
    hide Live;
    var t := Cut(blocks, i, n);
    forall j | 0 <= j < |t|
      ensures HeaderOk(words', t, j)
    {
      if j == i + 2 {
        assert HeaderOk(words, blocks, i + 1);
      } else if j < i {
        SplitKeepsHeader(words, words', blocks, end, i, n, j);
      } else if j > i + 2 {
        SplitKeepsHeader(words, words', blocks, end, i, n, j - 1);
      }
    }
    SplitKeepsLive(words, words', blocks, end, i, n);
  }

  lemma SplitKeepsLive(words: Words, words': Words, blocks: Blocks, end: nat, i: nat, n: nat)
    requires i < |blocks| && blocks[i].free
    requires Tiles(blocks, end) && i < |blocks| && blocks[i].size >= n + SPLIT_SLACK && n % 8 == 0
    requires SplitDone(words, words', blocks, i, n)
    ensures LiveKept(words, words', Live(blocks))
  {
    hide HeaderAt;
    forall b, w: nat | b in Live(blocks) && InPayload(b, w) && w < |words|
      ensures words'[w] == words[w]
    {
      if SplitWord(blocks, Cut(blocks, i, n), i, w) {
        SplitWordsLie(blocks, end, i, n, w);
        NoLiveWord(blocks, end, if InHeader(blocks[i], w) || InPayload(blocks[i], w) then i else i + 1, w, b);
      }
    }
  }

  // ---------- one word of one header ----------

  lemma HeaderWriteKeepsOther(words: Words, blocks: Blocks, end: nat, i: nat, w: nat, value: Word, j: nat)
    requires Tiles(blocks, end) && Laid(words, blocks) && i < |blocks| && InHeader(blocks[i], w) && w < |words|
    requires j < |blocks| && j != i
    ensures HeaderOk(words[w := value], blocks, j)
  {
    BlocksApart(blocks, end, i, j, w);
    assert HeaderOk(words, blocks, j);
    HeaderKept(words, words[w := value], blocks[j], NextAddress(blocks, j), PrevAddress(blocks, j));
  }

  /** A write to a word of a header leaves all live data alone. */
  lemma HeaderWriteKeepsLive(words: Words, blocks: Blocks, end: nat, i: nat, w: nat, value: Word)
    requires Tiles(blocks, end) && i < |blocks| && InHeader(blocks[i], w) && w < |words|
    ensures LiveKept(words, words[w := value], Live(blocks))
  {
    forall b | b in Live(blocks)
      ensures PayloadKept(words, words[w := value], b)
    {
      NoLiveWord(blocks, end, i, w, b);
    }
  }

  /** Setting the free byte of block i. */
  lemma FlagLaid(words: Words, blocks: Blocks, end: nat, i: nat, free: bool, value: Word)
    requires Tiles(blocks, end) && Laid(words, blocks) && i < |blocks| && value % 256 == FreeByte(free)
    ensures HeaderOk(words, blocks, i)
    ensures var words' := words[WordIndex(blocks[i].address) + 1 := value];
            Laid(words', blocks[i := blocks[i].(free := free)]) && LiveKept(words, words', Live(blocks))
  {
    assert HeaderOk(words, blocks, i);
    var w := WordIndex(blocks[i].address) + 1;
    var words', t := words[w := value], blocks[i := blocks[i].(free := free)];
    HeaderWriteKeepsLive(words, blocks, end, i, w, value);
    forall j | 0 <= j < |t|
      ensures HeaderOk(words', t, j)
    {
      assert NextAddress(t, j) == NextAddress(blocks, j) && PrevAddress(t, j) == PrevAddress(blocks, j);
      if j != i {
        HeaderWriteKeepsOther(words, blocks, end, i, w, value, j);
      }
    }
  }

  // ---------- merging ----------

  /** The words written when block i absorbs block i + 1. */
  predicate MergeWord(blocks: Blocks, i: nat, w: nat)
    requires i < |blocks|
  {
    InHeader(blocks[i], w) ||
    (i + 2 < |blocks| && InHeader(blocks[i + 2], w) && w == WordIndex(blocks[i + 2].address) + 3)
  }

  ghost predicate MergeDone(words: Words, words': Words, blocks: Blocks, i: nat)
    requires i + 1 < |blocks| && blocks[i + 1].free
  {
    && |words'| == |words|
    && HeaderAt(words', MergeRight(blocks, i)[i], NextAddress(blocks, i + 1), PrevAddress(blocks, i))
    && (i + 2 < |blocks| ==> HeaderAt(words', blocks[i + 2], NextAddress(blocks, i + 2), blocks[i].address))
    && forall w: nat | w < |words| && !MergeWord(blocks, i, w) :: words'[w] == words[w]
  }

  lemma MergeKeepsHeader(words: Words, words': Words, blocks: Blocks, end: nat, i: nat, j: nat)
    requires Tiles(blocks, end) && Laid(words, blocks) && i + 1 < |blocks| && blocks[i + 1].free
    requires MergeDone(words, words', blocks, i) && j < |blocks| && j != i && j != i + 2
    ensures HeaderOk(words', blocks, j)
  {
    assert HeaderOk(words, blocks, j);
    forall w: nat | InHeader(blocks[j], w)
      ensures words'[w] == words[w]
    {
      BlocksApart(blocks, end, j, i, w);
      if i + 2 < |blocks| {
        BlocksApart(blocks, end, j, i + 2, w);
      }
    }
    HeaderKept(words, words', blocks[j], NextAddress(blocks, j), PrevAddress(blocks, j));
  }

  lemma MergeLaid(words: Words, words': Words, blocks: Blocks, end: nat, i: nat)
    requires Tiles(blocks, end) && Laid(words, blocks) && i + 1 < |blocks| && blocks[i + 1].free
    requires MergeDone(words, words', blocks, i)
    ensures Laid(words', MergeRight(blocks, i))
    ensures LiveKept(words, words', Live(blocks))
  {
    hide HeaderAt;
    hide Live;
    var t := MergeRight(blocks, i);
    forall j | 0 <= j < |t|
      ensures HeaderOk(words', t, j)
    {
      if j < i {
        MergeKeepsHeader(words, words', blocks, end, i, j);
      } else if j > i + 1 {
        MergeKeepsHeader(words, words', blocks, end, i, j + 1);
      }
    }
    MergeKeepsLive(words, words', blocks, end, i);
  }

  lemma MergeKeepsLive(words: Words, words': Words, blocks: Blocks, end: nat, i: nat)
    requires Tiles(blocks, end) && i + 1 < |blocks| && blocks[i + 1].free && MergeDone(words, words', blocks, i)
    ensures LiveKept(words, words', Live(blocks))
  {
    hide HeaderAt;
    forall b, w: nat | b in Live(blocks) && InPayload(b, w) && w < |words|
      ensures words'[w] == words[w]
    {
      if MergeWord(blocks, i, w) {
        NoLiveWord(blocks, end, if InHeader(blocks[i], w) then i else i + 2, w, b);
      }
    }
  }

  /** The stores that make the block at `left` absorb its right neighbour. */
  function MergeStores(words: Words, left: nat, size: Word, next: Word): (r: Words)
    requires HeaderFits(words, left) && (next != 0 ==> HeaderFits(words, next))
    requires left < WORD_LIMIT
    ensures |r| == |words|
  {
    var words1 := words[WordIndex(left) := size][WordIndex(left) + 2 := next];
    if next != 0 then words1[WordIndex(next) + 3 := left] else words1
  }

  lemma MergeStoresAreDone(words: Words, blocks: Blocks, end: nat, i: nat, size: Word, left: Word, next: Word)
    requires Tiles(blocks, end) && Laid(words, blocks) && i + 1 < |blocks| && blocks[i].free && blocks[i + 1].free
    requires size == blocks[i].size + HEADER_SIZE + blocks[i + 1].size
    requires left == blocks[i].address && next == NextAddress(blocks, i + 1)
    ensures HeaderFits(words, left) && (next != 0 ==> HeaderFits(words, next))
    ensures MergeDone(words, MergeStores(words, left, size, next), blocks, i)
  {
    hide HeaderAt;
    hide Tiles;
    hide Laid;
    MergeIndexes(words, blocks, end, i);
    MergeStoresLeft(words, blocks[i], size, NextAddress(blocks, i), PrevAddress(blocks, i), left, next);
    if i + 2 < |blocks| {
      MergeStoresNext(words, blocks[i], blocks[i + 2], NextAddress(blocks, i + 2), PrevAddress(blocks, i + 2), size, left);
    }
  }

  lemma MergeIndexes(words: Words, blocks: Blocks, end: nat, i: nat)
    requires Tiles(blocks, end) && Laid(words, blocks) && i + 1 < |blocks|
    ensures HeaderOk(words, blocks, i) && HeaderFits(words, blocks[i].address)
    ensures i + 2 < |blocks| ==> HeaderOk(words, blocks, i + 2) && HeaderFits(words, blocks[i + 2].address)
    ensures i + 2 < |blocks| ==> WordIndex(blocks[i].address) + 5 <= WordIndex(blocks[i + 2].address)
  {
    assert HeaderOk(words, blocks, i);
    WordsOfBlock(blocks, end, i);
    WordsOfBlock(blocks, end, i + 1);
    if i + 2 < |blocks| {
      assert HeaderOk(words, blocks, i + 2);
    }
  }

  lemma MergeStoresLeft(words: Words, b: Block, size: Word, next0: nat, prev: nat, left: Word, next: Word)
    requires HeaderAt(words, b, next0, prev) && left == b.address
    requires next != 0 ==> HeaderFits(words, next) && WordIndex(b.address) + 5 <= WordIndex(next)
    ensures HeaderAt(MergeStores(words, left, size, next), b.(size := size), next, prev)
  {
  }

  lemma MergeStoresNext(words: Words, b: Block, c: Block, next: nat, prev: nat, size: Word, left: Word)
    requires HeaderAt(words, c, next, prev) && left == b.address && HeaderFits(words, left)
    requires WordIndex(left) + 5 <= WordIndex(c.address) && c.address < WORD_LIMIT
    ensures HeaderAt(MergeStores(words, left, size, c.address), c, next, left)
  {
  }

  // ---------- growing ----------

  /** A header for the new memory is written behind the last block and linked. */
  ghost predicate AppendDone(words: Words, words': Words, blocks: Blocks, end: nat, bytes: nat)
    requires |blocks| > 0 && bytes > HEADER_SIZE
  {
    var last := blocks[|blocks| - 1];
    && |words| <= |words'|
    && HeaderAt(words', last, end, PrevAddress(blocks, |blocks| - 1))
    && HeaderAt(words', Block(end, bytes - HEADER_SIZE, true), 0, last.address)
    && forall w: nat | w < |words| && !InHeader(last, w) && !InHeader(Block(end, bytes - HEADER_SIZE, true), w) ::
      words'[w] == words[w]
  }

  /** The words of the appended header lie behind all blocks. */
  lemma BehindAll(blocks: Blocks, end: nat, j: nat, w: nat)
    requires Tiles(blocks, end) && j < |blocks| && (InHeader(blocks[j], w) || InPayload(blocks[j], w))
    ensures end >= KHEAP_START && w < WordIndex(end)
  {
    WordsOfBlock(blocks, end, j);
  }

  lemma AppendLaid(words: Words, words': Words, blocks: Blocks, end: nat, bytes: nat)
    requires Tiles(blocks, end) && Laid(words, blocks)
    requires bytes >= PAGE_SIZE && bytes % 8 == 0 && AppendDone(words, words', blocks, end, bytes)
    ensures Laid(words', blocks + [Block(end, bytes - HEADER_SIZE, true)])
    ensures LiveKept(words, words', Live(blocks))
  {
    hide HeaderAt;
    var n := |blocks| - 1;
    var t := blocks + [Block(end, bytes - HEADER_SIZE, true)];
    forall j | 0 <= j < |t|
      ensures HeaderOk(words', t, j)
    {
      if j < n {
        AppendKeepsHeader(words, words', blocks, end, bytes, j);
      }
    }
    forall b | b in Live(blocks)
      ensures PayloadKept(words, words', b)
    {
      forall w: nat | InPayload(b, w) && w < |words|
        ensures words'[w] == words[w]
      {
        var j :| 0 <= j < |blocks| && blocks[j] == b;
        BehindAll(blocks, end, j, w);
        if InHeader(blocks[n], w) {
          NoLiveWord(blocks, end, n, w, b);
        }
      }
    }
  }

  lemma AppendKeepsHeader(words: Words, words': Words, blocks: Blocks, end: nat, bytes: nat, j: nat)
    requires Tiles(blocks, end) && Laid(words, blocks)
    requires bytes > HEADER_SIZE && AppendDone(words, words', blocks, end, bytes) && j < |blocks| - 1
    ensures HeaderOk(words', blocks, j)
  {
    assert HeaderOk(words, blocks, j);
    forall w: nat | InHeader(blocks[j], w)
      ensures words'[w] == words[w]
    {
      BehindAll(blocks, end, j, w);
      BlocksApart(blocks, end, j, |blocks| - 1, w);
    }
    HeaderKept(words, words', blocks[j], NextAddress(blocks, j), PrevAddress(blocks, j));
  }

  /** More memory behind the heap changes nothing in it. */
  lemma MoreWords(words: Words, words': Words, blocks: Blocks)
    requires Laid(words, blocks) && |words| <= |words'| && words'[..|words|] == words
    ensures Laid(words', blocks) && LiveKept(words, words', Live(blocks))
  {
    assert forall w: nat | w < |words| :: words'[w] == words'[..|words|][w];
    forall i | 0 <= i < |blocks|
      ensures HeaderOk(words', blocks, i)
    {
      assert HeaderOk(words, blocks, i);
      HeaderKept(words, words', blocks[i], NextAddress(blocks, i), PrevAddress(blocks, i));
    }
  }

  // ---------- the client's data ----------

  /** A write into a live payload changes no header and no other payload. */
  lemma PayloadWriteKeeps(words: Words, blocks: Blocks, end: nat, i: nat, w: nat, value: Word)
    requires Tiles(blocks, end) && Laid(words, blocks) && i < |blocks| && InPayload(blocks[i], w) && w < |words|
    ensures Laid(words[w := value], blocks)
    ensures LiveKept(words, words[w := value], Live(blocks) - {blocks[i]})
  {
    var words' := words[w := value];
    forall j | 0 <= j < |blocks|
      ensures HeaderOk(words', blocks, j)
    {
      assert HeaderOk(words, blocks, j);
      assert !InHeader(blocks[i], w);
      if j != i {
        BlocksApart(blocks, end, i, j, w);
      }
      HeaderKept(words, words', blocks[j], NextAddress(blocks, j), PrevAddress(blocks, j));
    }
    forall b | b in Live(blocks) - {blocks[i]}
      ensures PayloadKept(words, words', b)
    {
      var j :| 0 <= j < |blocks| && blocks[j] == b;
      BlocksApart(blocks, end, i, j, w);
    }
  }

  lemma LiveKeptTransitive(words: Words, words1: Words, words2: Words, live: set<Block>)
    requires |words| <= |words1| <= |words2|
    requires LiveKept(words, words1, live) && LiveKept(words1, words2, live)
    ensures LiveKept(words, words2, live)
  {
    forall b, w: nat | b in live && InPayload(b, w) && w < |words|
      ensures words2[w] == words[w]
    {
      assert PayloadKept(words, words1, b) && PayloadKept(words1, words2, b);
    }
  }
}
