/**
  What the heap promises its clients, proved about the block sequences of `HeapBlocks`.
 */
module HeapProperties {
  import opened Bits
  import opened Sizes
  import opened HeapMemory
  import opened HeapBlocks

  // ---------- kmalloc and kfree as functions of the blocks ----------

  datatype State = State(blocks: Blocks, end: nat)

  /** Requests in the form `align` hands them on. */
  predicate Request(n: nat) {
    MIN_PAYLOAD <= n <= MAX_REQUEST && n % 16 == 0
  }

  function GrowthBytes(n: nat): nat {
    PagesNeeded(n) * PAGE_SIZE
  }

  /** The heap in which the block is found: as it is if something fits, extended otherwise. */
  function Grown(s: State, n: nat): State
    requires |s.blocks| > 0
  {
    if FirstFit(s.blocks, n) < |s.blocks| then s
    else
      GrowthIsEnough(n);
      State(Extend(s.blocks, s.end, GrowthBytes(n)), s.end + GrowthBytes(n))
  }

  lemma GrowthIsEnough(n: nat)
    ensures n + HEADER_SIZE <= GrowthBytes(n) && PAGE_SIZE <= GrowthBytes(n) && GrowthBytes(n) % 8 == 0
    ensures GrowthBytes(n) < n + HEADER_SIZE + PAGE_SIZE || GrowthBytes(n) == PAGE_SIZE
  {
  }

  ghost predicate Good(s: State) {
    Shape(s.blocks, s.end)
  }

  // ---------- progress ----------

  /** After growing, the search finds a block: the last one, unless an earlier one fitted before. */
  lemma GrownFits(s: State, n: nat)
    requires Good(s) && Request(n)
    ensures Good(Grown(s, n))
    ensures var g := Grown(s, n).blocks;
            && FirstFit(g, n) < |g|
            && (FirstFit(s.blocks, n) == |s.blocks| ==> FirstFit(g, n) == |g| - 1)
  {
    if FirstFit(s.blocks, n) == |s.blocks| {
      GrowthIsEnough(n);
      ExtendKeepsShape(s.blocks, s.end, GrowthBytes(n));
      var g := Grown(s, n).blocks;
      assert g[|g| - 1].Fits(n);
      assert forall j | 0 <= j < |g| - 1 :: g[j] == s.blocks[j];
    }
  }

  /** The state after `kmalloc`, and the block it hands out. */
  function Malloc(s: State, n: nat): (State, Block)
    requires |s.blocks| > 0 && FirstFit(Grown(s, n).blocks, n) < |Grown(s, n).blocks|
  {
    var g := Grown(s, n);
    var i := FirstFit(g.blocks, n);
    (State(Take(g.blocks, i, n), g.end), Take(g.blocks, i, n)[i])
  }

  /** The block handed out is the lowest free block that fits, and wastes less than a header and a minimal payload. */
  lemma MallocGrants(s: State, n: nat)
    requires Good(s) && Request(n)
    ensures FirstFit(Grown(s, n).blocks, n) < |Grown(s, n).blocks|
    ensures var g, (s', b) := Grown(s, n).blocks, Malloc(s, n);
            && Good(s') && b in s'.blocks && !b.free
            && n <= b.size < n + 56
            && (exists c :: c in g && c.Fits(n) && c.address == b.address)
            && (forall c | c in g && c.Fits(n) :: b.address <= c.address)
  {
    GrownFits(s, n);
    var g := Grown(s, n);
    var i := FirstFit(g.blocks, n);
    TakeKeepsShape(g.blocks, g.end, i, n);
    assert g.blocks[i] in g.blocks;
    assert Take(g.blocks, i, n)[i] in Take(g.blocks, i, n);
    forall c | c in g.blocks && c.Fits(n)
      ensures g.blocks[i].address <= c.address
    {
      var j :| 0 <= j < |g.blocks| && g.blocks[j] == c;
      if i < j {
        InOrder(g.blocks, g.end, i, j);
      }
    }
  }

  /** If something fits, the block granted holds the n bytes asked for exactly if rounding up did not wrap. */
  lemma GrantCoversRequest(blocks: Blocks, n: Word)
    requires n > 0 && FirstFit(blocks, Align(n)) < |blocks|
    ensures var i := FirstFit(blocks, Align(n));
            n <= Take(blocks, i, Align(n))[i].size <==> n <= WORD_LIMIT - 16
  {
    AlignRoundsUp(n);
    if n > WORD_LIMIT - 16 {
      AlignWraps(n);
    }
  }

  /** Close to 2^64, the size wraps to 0. */
  lemma AlignWraps(n: Word)
    requires n > WORD_LIMIT - 16
    ensures Align(n) == 0
  {
    WrapOnce(n + 15);
    Align16(n + 15 - WORD_LIMIT);
  }

  /** On the initial heap, a request of 2^64 - 1 bytes is granted a block of 0 bytes. */
  lemma HugeRequest(end: nat)
    requires end == KHEAP_START + 1024 * 1024
    ensures var blocks := [Block(KHEAP_START, 1024 * 1024 - HEADER_SIZE, true)];
            && Shape(blocks, end) && FirstFit(blocks, Align(WORD_LIMIT - 1)) == 0
            && Take(blocks, 0, Align(WORD_LIMIT - 1))[0] == Block(KHEAP_START, 0, false)
  {
    AlignWraps(WORD_LIMIT - 1);
  }

  // ---------- alignment of payloads ----------

  /** How many of the first i blocks have a size that is 8 modulo 16. */
  function OddSizes(blocks: Blocks, i: nat): nat
    requires i <= |blocks|
  {
    if i == 0 then 0 else OddSizes(blocks, i - 1) + if blocks[i - 1].size % 16 == 8 then 1 else 0
  }

  /** Payloads are multiples of 16 every other block: the header has 40 bytes, and sizes are not all multiples of 16. */
  lemma {:induction false} PayloadAlignment(blocks: Blocks, end: nat, i: nat)
    requires Tiles(blocks, end) && i < |blocks|
    ensures blocks[i].Payload() % 16 == 0 <==> (i + OddSizes(blocks, i)) % 2 == 1
    ensures blocks[i].Payload() % 8 == 0
    decreases i
  {
    if i > 0 {
      PayloadAlignment(blocks, end, i - 1);
      Touching(blocks, end, i - 1);
      NextAlignment(blocks[i - 1].Payload(), blocks[i - 1].size);
    }
  }

  lemma NextAlignment(payload: nat, size: nat)
    requires payload % 8 == 0 && size % 8 == 0
    ensures (payload + size + HEADER_SIZE) % 16 == 0 <==> ((payload % 16 == 0) == (size % 16 == 8))
    ensures (payload + size + HEADER_SIZE) % 8 == 0
  {
    MultiplesOf8(payload, size);
    MultiplesOf8(payload + size, HEADER_SIZE);
    Halves(payload);
    Halves(size);
    Halves(payload + size + HEADER_SIZE);
    Parity(payload / 8, size / 8);
  }

  lemma Halves(x: nat)
    requires x % 8 == 0
    ensures x % 16 == 0 <==> x / 8 % 2 == 0
    ensures x % 16 == 8 <==> x / 8 % 2 == 1
  {
    ModUnique(x, 16, x / 8 / 2, 8 * (x / 8 % 2));
  }

  lemma Parity(a: nat, b: nat)
    ensures (a + b + 5) % 2 == 0 <==> ((a % 2 == 0) == (b % 2 == 1))
  {
  }

  /** What `kmalloc` returns is 16-aligned exactly if the first free block that fits is at such a place. */
  lemma MallocAlignment(s: State, n: nat)
    requires Good(s) && Request(n)
    ensures FirstFit(Grown(s, n).blocks, n) < |Grown(s, n).blocks|
    ensures var g := Grown(s, n).blocks;
            var i := FirstFit(g, n);
            Malloc(s, n).1.Payload() % 16 == 0 <==> (i + OddSizes(g, i)) % 2 == 1
  {
    GrownFits(s, n);
    PayloadAlignment(Grown(s, n).blocks, Grown(s, n).end, FirstFit(Grown(s, n).blocks, n));
  }

  /** The first block is never 16-aligned. */
  lemma FirstPayload(blocks: Blocks, end: nat)
    requires Tiles(blocks, end)
    ensures blocks[0].Payload() % 16 == 8
  {
  }

  /** On the initial heap, two requests of 16 bytes get a payload off 16 and one on it. */
  lemma TwoRequests(s: State)
    requires s == State([Block(KHEAP_START, 1024 * 1024 - HEADER_SIZE, true)], KHEAP_START + 1024 * 1024)
    ensures Good(s) && FirstFit(Grown(s, 16).blocks, 16) < |Grown(s, 16).blocks|
    ensures var (s1, b1) := Malloc(s, 16);
            && Good(s1) && FirstFit(Grown(s1, 16).blocks, 16) < |Grown(s1, 16).blocks|
            && var (s2, b2) := Malloc(s1, 16);
               b1.Payload() % 16 == 8 && b2.Payload() % 16 == 0
  {
    MallocGrants(s, 16);
    var (s1, b1) := Malloc(s, 16);
    MallocGrants(s1, 16);
    assert s1.blocks == [Block(KHEAP_START, 16, false), Block(KHEAP_START + 56, 1024 * 1024 - 96, true)];
    assert FirstFit(s1.blocks, 16) == 1;
  }

  // ---------- round trip ----------

  lemma NeighboursInUse(blocks: Blocks, i: nat)
    requires NoFreeNeighbours(blocks) && i < |blocks| && blocks[i].free
    ensures i > 0 ==> !blocks[i - 1].free
    ensures i + 1 < |blocks| ==> !blocks[i + 1].free
  {
    if i > 0 {
      NotBothFree(blocks, i - 1);
    }
  }

  lemma NotBothFree(blocks: Blocks, i: nat)
    requires NoFreeNeighbours(blocks) && i + 1 < |blocks|
    ensures !blocks[i].free || !blocks[i + 1].free
  {
  }

  lemma MergePair(before: Blocks, x: Block, y: Block, after: Blocks)
    requires y.free
    ensures MergeRight(before + [x, y] + after, |before|) ==
            before + [x.(size := x.size + HEADER_SIZE + y.size)] + after
  {
    assert (before + [x, y] + after)[|before| + 2..] == after;
  }

  lemma ReleaseUndoesSplit(blocks: Blocks, i: nat, n: nat)
    requires NoFreeNeighbours(blocks) && i < |blocks| && blocks[i].Fits(n) && blocks[i].size >= n + SPLIT_SLACK
    ensures Release(Take(blocks, i, n), i) == blocks
  {
    hide MergeRight;
    NeighboursInUse(blocks, i);
    var x := Block(blocks[i].address, n, true);
    var y := Block(x.Payload() + n, blocks[i].size - n - HEADER_SIZE, true);
    var t := Take(blocks, i, n);
    assert t[i := t[i].(free := true)] == blocks[..i] + [x, y] + blocks[i + 1..];
    MergePair(blocks[..i], x, y, blocks[i + 1..]);
    assert blocks == blocks[..i] + [blocks[i]] + blocks[i + 1..];
  }

  /** Freeing what was just allocated gives back the blocks the search ran on. */
  lemma ReleaseUndoesTake(blocks: Blocks, i: nat, n: nat)
    requires NoFreeNeighbours(blocks) && i < |blocks| && blocks[i].Fits(n)
    ensures Release(Take(blocks, i, n), i) == blocks
  {
    if blocks[i].size >= n + SPLIT_SLACK {
      ReleaseUndoesSplit(blocks, i, n);
    } else {
      NeighboursInUse(blocks, i);
      var t := Take(blocks, i, n);
      assert t[i := t[i].(free := true)] == blocks;
    }
  }

  /** The search succeeds exactly if some free block is large enough. */
  lemma SomethingFits(blocks: Blocks, n: nat)
    ensures FirstFit(blocks, n) < |blocks| <==> exists b :: b in blocks && b.free && b.size >= n
  {
    if b :| b in blocks && b.free && b.size >= n {
      var i :| 0 <= i < |blocks| && blocks[i] == b;
      assert blocks[i].Fits(n);
    }
    if FirstFit(blocks, n) < |blocks| {
      assert blocks[FirstFit(blocks, n)] in blocks;
    }
  }

  /** If something fits, `kmalloc` leaves the heap as large as it is; otherwise it grows by the least whole pages that hold n bytes and a header. */
  lemma MallocGrows(s: State, n: nat)
    requires Good(s) && Request(n)
    ensures FirstFit(Grown(s, n).blocks, n) < |Grown(s, n).blocks|
    ensures (exists b :: b in s.blocks && b.free && b.size >= n) ==> Grown(s, n) == s && Malloc(s, n).0.end == s.end
    ensures (forall b | b in s.blocks :: !b.free || b.size < n) ==>
              GrownEnd(s, Grown(s, n), n) && Malloc(s, n).0.end == Grown(s, n).end
  {
    GrownFits(s, n);
    SomethingFits(s.blocks, n);
    if FirstFit(s.blocks, n) == |s.blocks| {
      ExtendGrows(s, n);
    }
  }

  /** From s to g the heap has grown at its end by the least number of pages for n bytes, and nowhere else. */
  ghost predicate GrownEnd(s: State, g: State, n: nat) {
    exists k: nat :: GrownByPages(s, g, n, k)
  }

  ghost predicate GrownByPages(s: State, g: State, n: nat, k: nat) {
    && |s.blocks| > 0 && n + 40 <= 4096 * k && 4096 * (k - 1) < n + 40
    && g.end == s.end + 4096 * k
    && var last := |s.blocks| - 1;
       if s.blocks[last].free then
         g.blocks == s.blocks[..last] + [Block(s.blocks[last].address, s.blocks[last].size + 4096 * k, true)]
       else g.blocks == s.blocks + [Block(s.end, 4096 * k - 40, true)]
  }

  lemma ExtendGrows(s: State, n: nat)
    requires Good(s) && FirstFit(s.blocks, n) == |s.blocks|
    ensures GrownByPages(s, Grown(s, n), n, PagesNeeded(n))
  {
    hide PagesNeeded;
    EnoughPages(n);
    var last := |s.blocks| - 1;
    assert s.blocks == s.blocks[..last] + [s.blocks[last]];
  }

  lemma EnoughPages(n: nat)
    ensures n + 40 <= 4096 * PagesNeeded(n) && 4096 * (PagesNeeded(n) - 1) < n + 40
  {
  }

  /** `kfree(kmalloc(n))`: the same heap if something fitted, otherwise only its free end has grown by whole pages. */
  lemma FreeUndoesMalloc(s: State, n: nat)
    requires Good(s) && Request(n)
    ensures FirstFit(Grown(s, n).blocks, n) < |Grown(s, n).blocks|
    ensures Find(Malloc(s, n).0.blocks, Malloc(s, n).1.address) < |Malloc(s, n).0.blocks|
    ensures var (s', b) := Malloc(s, n);
            var freed := State(Release(s'.blocks, Find(s'.blocks, b.address)), s'.end);
            && ((exists c :: c in s.blocks && c.free && c.size >= n) ==> freed == s)
            && ((forall c | c in s.blocks :: !c.free || c.size < n) ==> GrownEnd(s, freed, n))
  {
    MallocGrows(s, n);
    GrownFits(s, n);
    var g := Grown(s, n);
    var i := FirstFit(g.blocks, n);
    TakeKeepsShape(g.blocks, g.end, i, n);
    FindIs(Take(g.blocks, i, n), g.end, i);
    ReleaseUndoesTake(g.blocks, i, n);
  }

  /** The position of the block at an address, or |blocks|. */
  function Find(blocks: Blocks, address: nat): (i: nat)
    ensures i <= |blocks|
    ensures i < |blocks| ==> blocks[i].address == address
    ensures i == |blocks| ==> forall j | 0 <= j < |blocks| :: blocks[j].address != address
  {
    if blocks == [] then 0
    else if blocks[|blocks| - 1].address == address then |blocks| - 1
    else
      var i := Find(blocks[..|blocks| - 1], address);
      if i < |blocks| - 1 then i else |blocks|
  }

  lemma FindIs(blocks: Blocks, end: nat, i: nat)
    requires Tiles(blocks, end) && i < |blocks|
    ensures Find(blocks, blocks[i].address) == i
  {
    var j := Find(blocks, blocks[i].address);
    if j < i {
      InOrder(blocks, end, j, i);
    } else if i < j < |blocks| {
      InOrder(blocks, end, i, j);
    }
  }

  // ---------- other live blocks ----------

  ghost function Live(blocks: Blocks): set<Block> {
    set b | b in blocks && !b.free
  }

  lemma ExtendKeepsLive(blocks: Blocks, end: nat, bytes: nat)
    requires |blocks| > 0 && bytes > HEADER_SIZE
    ensures Live(Extend(blocks, end, bytes)) == Live(blocks)
  {
    var r, n := Extend(blocks, end, bytes), |blocks| - 1;
    assert blocks == blocks[..n] + [blocks[n]];
    assert blocks[n].free ==> r == blocks[..n] + [r[n]];
  }

  lemma TakeAddsLive(blocks: Blocks, end: nat, i: nat, n: nat)
    requires Tiles(blocks, end) && i < |blocks| && blocks[i].Fits(n)
    ensures Live(Take(blocks, i, n)) == Live(blocks) + {Take(blocks, i, n)[i]}
  {
    var r := Take(blocks, i, n);
    assert blocks == blocks[..i] + [blocks[i]] + blocks[i + 1..];
    assert blocks[i].size < n + SPLIT_SLACK ==> r == blocks[..i] + [r[i]] + blocks[i + 1..];
  }

  lemma CutKeepsLive(blocks: Blocks, i: nat, n: nat)
    requires i < |blocks| && blocks[i].free && blocks[i].size >= n + SPLIT_SLACK
    ensures Live(Cut(blocks, i, n)) == Live(blocks)
  {
    assert blocks == blocks[..i] + [blocks[i]] + blocks[i + 1..];
  }

  lemma MergeKeepsLiveSet(blocks: Blocks, i: nat)
    requires i + 1 < |blocks| && blocks[i].free && blocks[i + 1].free
    ensures Live(MergeRight(blocks, i)) == Live(blocks)
  {
    assert blocks == blocks[..i] + [blocks[i], blocks[i + 1]] + blocks[i + 2..];
  }

  lemma FreeingRemovesLive(blocks: Blocks, end: nat, i: nat)
    requires Tiles(blocks, end) && i < |blocks|
    ensures Tiles(blocks[i := blocks[i].(free := true)], end)
    ensures Live(blocks[i := blocks[i].(free := true)]) == Live(blocks) - {blocks[i]}
  {
    var t := blocks[i := blocks[i].(free := true)];
    forall j | 0 <= j < |blocks| && j != i
      ensures blocks[j] != blocks[i] && t[j] == blocks[j]
    {
      DistinctBlocks(blocks, end, i, j);
    }
    assert forall b | b in Live(blocks) - {blocks[i]} :: b in t;
  }

  lemma LiveOfSplice(blocks: Blocks, a: nat, b: nat, m: Block)
    requires a < b <= |blocks| && m.free
    ensures Live(Splice(blocks, a, b, m)) == Live(blocks[..a]) + Live(blocks[b..])
    ensures Live(blocks) == Live(blocks[..a]) + Live(blocks[a..b]) + Live(blocks[b..])
  {
    assert blocks == blocks[..a] + blocks[a..b] + blocks[b..];
  }

  lemma DistinctBlocks(blocks: Blocks, end: nat, i: nat, j: nat)
    requires Tiles(blocks, end) && i < |blocks| && j < |blocks| && i != j
    ensures blocks[i] != blocks[j] && blocks[i].address != blocks[j].address
  {
    InOrder(blocks, end, if i < j then i else j, if i < j then j else i);
  }

  lemma LiveOfRun(blocks: Blocks, i: nat)
    requires i < |blocks| && !blocks[i].free
    ensures Live(blocks[RunStart(blocks, i)..RunEnd(blocks, i)]) == {blocks[i]}
  {
    var a, b := RunStart(blocks, i), RunEnd(blocks, i);
    var run := blocks[a..b];
    assert run[i - a] == blocks[i];
    forall k | 0 <= k < |run|
      ensures run[k].free || run[k] == blocks[i]
    {
      assert run[k] == blocks[a + k];
    }
  }

  lemma ReleaseRemovesLive(blocks: Blocks, end: nat, i: nat)
    requires Tiles(blocks, end) && i < |blocks| && !blocks[i].free
    ensures Live(Release(blocks, i)) == Live(blocks) - {blocks[i]}
  {
    hide Release;
    var a, b := RunStart(blocks, i), RunEnd(blocks, i);
    ReleaseIsSplice(blocks, end, i);
    LiveOfSplice(blocks, a, b, Joined(blocks, a, b));
    LiveOfRun(blocks, i);
    forall j | 0 <= j < a || b <= j < |blocks|
      ensures blocks[j] != blocks[i]
    {
      DistinctBlocks(blocks, end, i, j);
    }
  }

  /** `kmalloc` adds one live block and changes no other; a new live block overlaps no other. */
  lemma MallocKeepsLive(s: State, n: nat)
    requires Good(s) && Request(n)
    ensures FirstFit(Grown(s, n).blocks, n) < |Grown(s, n).blocks|
    ensures var (s', b) := Malloc(s, n);
            Live(s'.blocks) == Live(s.blocks) + {b} && b !in Live(s.blocks)
  {
    GrownFits(s, n);
    GrowthIsEnough(n);
    var g := Grown(s, n);
    ExtendKeepsLive(s.blocks, s.end, GrowthBytes(n));
    var i := FirstFit(g.blocks, n);
    TakeAddsLive(g.blocks, g.end, i, n);
    forall c | c in Live(g.blocks)
      ensures c.address != g.blocks[i].address
    {
      var j :| 0 <= j < |g.blocks| && g.blocks[j] == c;
      InOrder(g.blocks, g.end, if i < j then i else j, if i < j then j else i);
    }
  }

  /** Live payloads lie inside the heap and are pairwise disjoint. */
  lemma LiveSeparate(s: State, b: Block, c: Block)
    requires Good(s) && b in Live(s.blocks) && c in Live(s.blocks) && b != c
    ensures KHEAP_START <= b.Payload() && b.End() <= s.end && b.Payload() % 8 == 0
    ensures b.End() <= c.address || c.End() <= b.address
  {
    var i :| 0 <= i < |s.blocks| && s.blocks[i] == b;
    var j :| 0 <= j < |s.blocks| && s.blocks[j] == c;
    InBounds(s.blocks, s.end, i);
    InOrder(s.blocks, s.end, if i < j then i else j, if i < j then j else i);
  }

  // ---------- freeing everything ----------

  /** One free block over the whole heap. */
  ghost predicate AllFree(s: State) {
    |s.blocks| == 1 && s.blocks[0].free && s.blocks[0].address == KHEAP_START && s.blocks[0].End() == s.end
  }

  /** With nothing live the heap is one free block. */
  lemma NothingLive(s: State)
    requires Good(s) && Live(s.blocks) == {}
    ensures AllFree(s)
  {
    if |s.blocks| > 1 {
      NotBothFree(s.blocks, 0);
    }
    assert forall i | 0 <= i < |s.blocks| :: s.blocks[i].free || s.blocks[i] in Live(s.blocks);
  }

  /** Freeing blocks one after the other, each given by its address. */
  function FreeAll(blocks: Blocks, order: seq<nat>): Blocks
    decreases |order|
  {
    if order == [] then blocks
    else
      var i := Find(blocks, order[0]);
      FreeAll(if i < |blocks| then Release(blocks, i) else blocks, order[1..])
  }

  /** Freeing all live blocks, in any order, leaves exactly one free block over the whole heap. */
  lemma {:induction false} FreeAllInAnyOrder(s: State, order: seq<nat>)
    requires Good(s)
    requires forall a :: a in order <==> exists b :: b in Live(s.blocks) && b.address == a
    requires forall i, j | 0 <= i < j < |order| :: order[i] != order[j]
    ensures AllFree(State(FreeAll(s.blocks, order), s.end))
    decreases |order|
  {
    if order == [] {
      assert forall b | b in Live(s.blocks) :: b.address in order;
      NothingLive(s);
    } else {
      assert order[0] in order;
      var b :| b in Live(s.blocks) && b.address == order[0];
      var i :| 0 <= i < |s.blocks| && s.blocks[i] == b;
      FindIs(s.blocks, s.end, i);
      ReleaseKeepsShape(s.blocks, s.end, i);
      ReleaseRemovesLive(s.blocks, s.end, i);
      var s' := State(Release(s.blocks, i), s.end);
      forall a
        ensures a in order[1..] <==> exists c :: c in Live(s'.blocks) && c.address == a
      {
        if a in order[1..] {
          assert a in order && a != order[0];
          var c :| c in Live(s.blocks) && c.address == a;
          assert c in Live(s'.blocks);
        }
        if c :| c in Live(s'.blocks) && c.address == a {
          assert c in Live(s.blocks) && a in order;
          if a == order[0] {
            LiveSeparate(s, b, c);
          }
        }
      }
      FreeAllInAnyOrder(s', order[1..]);
    }
  }

  // ---------- accounting ----------

  function Bytes(blocks: Blocks, free: bool): nat {
    if blocks == [] then 0
    else Bytes(blocks[..|blocks| - 1], free) +
         if blocks[|blocks| - 1].free == free then blocks[|blocks| - 1].size else 0
  }

  /** Used bytes, free bytes and headers add up to the mapped span. */
  lemma {:induction false} BytesAddUp(blocks: Blocks, end: nat)
    requires Tiles(blocks, end)
    ensures Bytes(blocks, false) + Bytes(blocks, true) + 40 * |blocks| == end - KHEAP_START
  {
    var n := |blocks| - 1;
    if n > 0 {
      Touching(blocks, end, n - 1);
      BytesAddUp(blocks[..n], blocks[n].address);
    }
  }

  lemma {:induction false} BytesConcat(a: Blocks, b: Blocks, free: bool)
    ensures Bytes(a + b, free) == Bytes(a, free) + Bytes(b, free)
    decreases |b|
  {
    if b == [] {
      assert a + b == a;
    } else {
      BytesConcat(a, b[..|b| - 1], free);
      assert (a + b)[..|a + b| - 1] == a + b[..|b| - 1];
    }
  }

  lemma BytesOfOne(b: Block, free: bool)
    ensures Bytes([b], free) == if b.free == free then b.size else 0
  {
    assert [b][..0] == [];
  }

  lemma {:induction false} BytesOfFree(blocks: Blocks)
    requires forall b | b in blocks :: b.free
    ensures Bytes(blocks, false) == 0
  {
    if blocks != [] {
      BytesOfFree(blocks[..|blocks| - 1]);
    }
  }

  /** A run of blocks is replaced: only its own used bytes change. */
  lemma UsedAround(before: Blocks, x: Blocks, y: Blocks, after: Blocks)
    ensures Bytes(before + x + after, false) + Bytes(y, false) == Bytes(before + y + after, false) + Bytes(x, false)
  {
    BytesConcat(before, x, false);
    BytesConcat(before + x, after, false);
    BytesConcat(before, y, false);
    BytesConcat(before + y, after, false);
  }

  lemma TakeUses(blocks: Blocks, i: nat, n: nat)
    requires i < |blocks| && blocks[i].Fits(n)
    ensures Bytes(Take(blocks, i, n), false) == Bytes(blocks, false) + Take(blocks, i, n)[i].size
  {
    hide Bytes;
    var t, b := Take(blocks, i, n), blocks[i];
    var x := if b.size >= n + SPLIT_SLACK
             then [Block(b.address, n, false), Block(b.Payload() + n, b.size - n - HEADER_SIZE, true)]
             else [b.(free := false)];
    assert blocks == blocks[..i] + [b] + blocks[i + 1..] && t == blocks[..i] + x + blocks[i + 1..];
    UsedAround(blocks[..i], [b], x, blocks[i + 1..]);
    BytesOfOne(b, false);
    BytesOfOne(x[0], false);
    BytesOfFree(x[1..]);
    assert x == [x[0]] + x[1..];
    BytesConcat([x[0]], x[1..], false);
  }

  lemma GrowthUsesNothing(s: State, n: nat)
    requires Good(s)
    ensures Bytes(Grown(s, n).blocks, false) == Bytes(s.blocks, false)
  {
    hide Bytes;
    if FirstFit(s.blocks, n) == |s.blocks| {
      GrowthIsEnough(n);
      var last := |s.blocks| - 1;
      var g := Grown(s, n).blocks;
      if s.blocks[last].free {
        assert s.blocks == s.blocks[..last] + [s.blocks[last]] + [] && g == s.blocks[..last] + [g[last]] + [];
        UsedAround(s.blocks[..last], [s.blocks[last]], [g[last]], []);
        BytesOfOne(s.blocks[last], false);
        BytesOfOne(g[last], false);
      } else {
        BytesConcat(s.blocks, [g[last + 1]], false);
        BytesOfOne(g[last + 1], false);
      }
    }
  }

  /** `kmalloc` takes exactly the size of the block it hands out into use. */
  lemma MallocUses(s: State, n: nat)
    requires Good(s) && Request(n)
    ensures FirstFit(Grown(s, n).blocks, n) < |Grown(s, n).blocks|
    ensures Bytes(Malloc(s, n).0.blocks, false) == Bytes(s.blocks, false) + Malloc(s, n).1.size
  {
    GrownFits(s, n);
    GrowthUsesNothing(s, n);
    TakeUses(Grown(s, n).blocks, FirstFit(Grown(s, n).blocks, n), n);
  }

  /** Around the block that is freed, its run has only free blocks. */
  lemma RunIsFree(blocks: Blocks, i: nat)
    requires i < |blocks|
    ensures forall b | b in blocks[RunStart(blocks, i)..i] :: b.free
    ensures forall b | b in blocks[i + 1..RunEnd(blocks, i)] :: b.free
  {
  }

  /** `kfree` gives exactly the size of the block back. */
  lemma ReleaseGivesBack(blocks: Blocks, end: nat, i: nat)
    requires Tiles(blocks, end) && i < |blocks| && !blocks[i].free
    ensures Bytes(Release(blocks, i), false) + blocks[i].size == Bytes(blocks, false)
  {
    hide Release;
    hide Bytes;
    hide Tiles;
    hide RunStart;
    hide RunEnd;
    var a, b := RunStart(blocks, i), RunEnd(blocks, i);
    ReleaseIsSplice(blocks, end, i);
    var m := Joined(blocks, a, b);
    assert blocks == blocks[..a] + blocks[a..b] + blocks[b..];
    UsedAround(blocks[..a], blocks[a..b], [m], blocks[b..]);
    BytesOfOne(m, false);
    assert blocks[a..b] == blocks[a..i] + [blocks[i]] + blocks[i + 1..b];
    BytesConcat(blocks[a..i] + [blocks[i]], blocks[i + 1..b], false);
    BytesConcat(blocks[a..i], [blocks[i]], false);
    BytesOfOne(blocks[i], false);
    RunIsFree(blocks, i);
    BytesOfFree(blocks[a..i]);
    BytesOfFree(blocks[i + 1..b]);
  }
}
