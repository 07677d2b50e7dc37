/**
  Whole runs of heap calls, as values: what a client may do, what it does to the blocks, and which
  block it gives up or writes.
 */
module HeapCalls {
  import opened Bits
  import opened Sizes
  import opened HeapMemory
  import opened HeapBlocks
  import opened HeapProperties
  import opened HeapLayout

  // ---------- allocating, freeing and moving as relations ----------

  /** `Malloc` of n bytes leads from s to s' and hands out b. */
  ghost predicate Mallocs(s: State, n: nat, s': State, b: Block) {
    |s.blocks| > 0 && FirstFit(Grown(s, n).blocks, n) < |Grown(s, n).blocks| && Malloc(s, n) == (s', b)
  }

  /** The block `Malloc` hands out is found again by its address. */
  lemma MallocBlock(s: State, n: nat)
    requires Good(s) && Request(n)
    ensures FirstFit(Grown(s, n).blocks, n) < |Grown(s, n).blocks|
    ensures var g, (s', b) := Grown(s, n).blocks, Malloc(s, n);
            && b.address == g[FirstFit(g, n)].address && b.address > 0 && !b.free
            && Find(s'.blocks, b.address) < |s'.blocks| && s'.blocks[Find(s'.blocks, b.address)] == b
    ensures FirstFit(s.blocks, n) < |s.blocks| ==> s.blocks[FirstFit(s.blocks, n)].address > 0
  {
    GrownFits(s, n);
    var g := Grown(s, n);
    var i := FirstFit(g.blocks, n);
    TakeKeepsShape(g.blocks, g.end, i, n);
    FindIs(Take(g.blocks, i, n), g.end, i);
    InBounds(g.blocks, g.end, i);
  }

  lemma RequestsAlign(size: Word)
    requires 0 < size <= MAX_REQUEST
    ensures Request(Align(size)) && size <= Align(size)
  {
    AlignRoundsUp(size);
  }

  /** From s to s': n bytes are allocated as b' and then b is freed. */
  ghost predicate Moves(s: State, n: nat, b: Block, s': State, b': Block) {
    exists s1 :: Mallocs(s, n, s1, b') && Frees(s1, b, s')
  }

  ghost predicate Frees(s: State, b: Block, s': State) {
    && Find(s.blocks, b.address) < |s.blocks| && s.blocks[Find(s.blocks, b.address)] == b
    && s' == State(Release(s.blocks, Find(s.blocks, b.address)), s.end)
  }

  /** A live block is found by its address. */
  lemma FindLive(s: State, b: Block)
    requires Good(s) && b in Live(s.blocks)
    ensures Find(s.blocks, b.address) < |s.blocks| && s.blocks[Find(s.blocks, b.address)] == b
    ensures b.address > 0
  {
    var i :| 0 <= i < |s.blocks| && s.blocks[i] == b;
    FindIs(s.blocks, s.end, i);
    InBounds(s.blocks, s.end, i);
  }

  /** The old block is still there when the new one has been allocated, and the new one when the old one has gone. */
  lemma MoveFacts(s: State, n: nat, b: Block, s1: State, b': Block)
    requires Good(s) && Request(n) && Mallocs(s, n, s1, b') && b in Live(s.blocks)
    ensures Good(s1) && b in Live(s1.blocks) && b' in Live(s1.blocks) && b != b' && b' !in Live(s.blocks)
    ensures Live(s1.blocks) == Live(s.blocks) + {b'}
    ensures Find(s1.blocks, b.address) < |s1.blocks| && s1.blocks[Find(s1.blocks, b.address)] == b
    ensures Find(s1.blocks, b'.address) < |s1.blocks| && s1.blocks[Find(s1.blocks, b'.address)] == b'
    ensures var s' := State(Release(s1.blocks, Find(s1.blocks, b.address)), s1.end);
            && Moves(s, n, b, s', b')
            && Find(s'.blocks, b'.address) < |s'.blocks| && s'.blocks[Find(s'.blocks, b'.address)] == b'
    ensures b'.size >= n && b.address > 0 && b'.address > 0 && !b'.free
  {
    MallocGrants(s, n);
    MallocKeepsLive(s, n);
    FindLive(s1, b);
    FindLive(s1, b');
    var i := Find(s1.blocks, b.address);
    var s' := State(Release(s1.blocks, i), s1.end);
    assert Frees(s1, b, s');
    ReleaseKeepsShape(s1.blocks, s1.end, i);
    ReleaseRemovesLive(s1.blocks, s1.end, i);
    FindLive(s', b');
  }

  // ---------- the calls of a client ----------

  datatype Call =
    | Kmalloc(size: Word)
    | Kfree(ptr: Word)
    | Krealloc(ptr: Word, size: Word)
    | Kcalloc(num: Word, size: Word)
    | Store(ptr: Word, k: nat, value: Word)

  /** A pointer that a client may pass back: the payload of a live block. */
  ghost predicate IsLive(s: State, ptr: nat) {
    ptr >= HEADER_SIZE && Find(s.blocks, ptr - HEADER_SIZE) < |s.blocks| && !BlockAt(s, ptr).free
  }

  ghost function BlockAt(s: State, ptr: nat): Block
    requires ptr >= HEADER_SIZE && Find(s.blocks, ptr - HEADER_SIZE) < |s.blocks|
  {
    s.blocks[Find(s.blocks, ptr - HEADER_SIZE)]
  }

  ghost predicate Permitted(s: State, c: Call) {
    match c
    case Kmalloc(size) => size <= MAX_REQUEST
    case Kfree(ptr) => ptr == 0 || IsLive(s, ptr)
    case Krealloc(ptr, size) => (ptr == 0 || IsLive(s, ptr)) && size <= MAX_REQUEST
    case Kcalloc(num, size) => num * size <= MAX_REQUEST || num * size >= WORD_LIMIT
    case Store(ptr, k, _) => IsLive(s, ptr) && 8 * k < BlockAt(s, ptr).size
  }

  /** The block whose content the call gives up or writes, if any. */
  ghost function Owned(s: State, c: Call): set<Block>
    requires Permitted(s, c)
  {
    match c
    case Kfree(ptr) => if ptr == 0 then {} else {BlockAt(s, ptr)}
    case Krealloc(ptr, size) => if ptr == 0 || 0 < size <= BlockAt(s, ptr).size then {} else {BlockAt(s, ptr)}
    case Store(ptr, _, _) => {BlockAt(s, ptr)}
    case _ => {}
  }

  ghost function Allocated(s: State, size: nat): (r: State)
    requires Good(s) && size <= MAX_REQUEST
    ensures Good(r) && Live(s.blocks) <= Live(r.blocks)
  {
    if size == 0 then s
    else
      RequestsAlign(size);
      MallocGrants(s, Align(size));
      MallocKeepsLive(s, Align(size));
      Malloc(s, Align(size)).0
  }

  ghost function Freed(s: State, b: Block): (r: State)
    requires Good(s) && b in Live(s.blocks)
    ensures Good(r) && Live(r.blocks) == Live(s.blocks) - {b}
  {
    FindLive(s, b);
    ReleaseKeepsShape(s.blocks, s.end, Find(s.blocks, b.address));
    ReleaseRemovesLive(s.blocks, s.end, Find(s.blocks, b.address));
    State(Release(s.blocks, Find(s.blocks, b.address)), s.end)
  }

  /** The heap after a call. */
  ghost function Effect(s: State, c: Call): (r: State)
    requires Good(s) && Permitted(s, c)
    ensures Good(r) && Live(s.blocks) - Owned(s, c) <= Live(r.blocks)
  {
    match c
    case Kmalloc(size) => Allocated(s, size)
    case Kfree(ptr) => if ptr == 0 then s else Freed(s, BlockAt(s, ptr))
    case Krealloc(ptr, size) =>
      if ptr == 0 then Allocated(s, size)
      else if size == 0 then Freed(s, BlockAt(s, ptr))
      else if size <= BlockAt(s, ptr).size then s
      else Freed(Allocated(s, size), BlockAt(s, ptr))
    case Kcalloc(num, size) => if num * size >= WORD_LIMIT then s else Allocated(s, num * size)
    case Store(_, _, _) => s
  }

  lemma MallocEffect(s: State, size: Word, s': State)
    requires Good(s) && size <= MAX_REQUEST
    requires size == 0 ==> s' == s
    requires size > 0 ==> exists b :: Mallocs(s, Align(size), s', b)
    ensures s' == Allocated(s, size)
  {
  }

  lemma ReallocEffect(s: State, ptr: Word, size: Word, s': State)
    requires Good(s) && Permitted(s, Krealloc(ptr, size))
    requires ptr == 0 && size == 0 ==> s' == s
    requires ptr == 0 && size != 0 ==> exists b :: Mallocs(s, Align(size), s', b)
    requires ptr != 0 && size == 0 ==> Frees(s, BlockAt(s, ptr), s')
    requires ptr != 0 && 0 < size <= BlockAt(s, ptr).size ==> s' == s
    requires ptr != 0 && size > BlockAt(s, ptr).size ==> exists b :: Moves(s, Align(size), BlockAt(s, ptr), s', b)
    ensures s' == Effect(s, Krealloc(ptr, size))
  {
  }

  lemma CallocEffect(s: State, num: Word, size: Word, s': State)
    requires Good(s) && Permitted(s, Kcalloc(num, size))
    requires num * size == 0 || num * size >= WORD_LIMIT ==> s' == s
    requires 0 < num * size < WORD_LIMIT ==> exists b :: Mallocs(s, Align(num * size), s', b)
    ensures s' == Effect(s, Kcalloc(num, size))
  {
  }

  // ---------- runs ----------

  ghost predicate AllPermitted(s: State, calls: seq<Call>)
    requires Good(s)
    decreases |calls|
  {
    calls == [] || (Permitted(s, calls[0]) && AllPermitted(Effect(s, calls[0]), calls[1..]))
  }

  ghost function Effects(s: State, calls: seq<Call>): (r: State)
    requires Good(s) && AllPermitted(s, calls)
    ensures Good(r)
    decreases |calls|
  {
    if calls == [] then s else Effects(Effect(s, calls[0]), calls[1..])
  }

  /** Nobody writes or frees block b in the run. */
  ghost predicate LeftAlone(s: State, calls: seq<Call>, b: Block)
    requires Good(s) && AllPermitted(s, calls)
    decreases |calls|
  {
    calls == [] || (b !in Owned(s, calls[0]) && LeftAlone(Effect(s, calls[0]), calls[1..], b))
  }

  /** Blocks left alone are still there, with the same content. */
  ghost predicate AloneKept(words: Words, words': Words, s: State, calls: seq<Call>)
    requires Good(s) && AllPermitted(s, calls)
  {
    forall b | b in Live(s.blocks) && LeftAlone(s, calls, b) ::
      b in Live(Effects(s, calls).blocks) && PayloadKept(words, words', b)
  }

  lemma NoCalls(words: Words, s: State)
    requires Good(s)
    ensures AloneKept(words, words, s, [])
  {
  }

  lemma OneMoreCall(words: Words, words1: Words, words2: Words, s: State, calls: seq<Call>)
    requires Good(s) && calls != [] && AllPermitted(s, calls)
    requires |words| <= |words1| <= |words2|
    requires LiveKept(words, words1, Live(s.blocks) - Owned(s, calls[0]))
    requires AloneKept(words1, words2, Effect(s, calls[0]), calls[1..])
    ensures AloneKept(words, words2, s, calls)
  {
    hide Live;
    hide Effect;
    hide Owned;
    var s1 := Effect(s, calls[0]);
    forall b | b in Live(s.blocks) && LeftAlone(s, calls, b)
      ensures b in Live(Effects(s, calls).blocks) && PayloadKept(words, words2, b)
    {
      assert PayloadKept(words, words1, b) && PayloadKept(words1, words2, b);
    }
  }

  /** The call is given the payload of b. */
  predicate Names(c: Call, b: Block) {
    match c
    case Kfree(ptr) => ptr == b.address + 40
    case Krealloc(ptr, _) => ptr == b.address + 40
    case Store(ptr, _, _) => ptr == b.address + 40
    case _ => false
  }

  /** A block that no call names is left alone. */
  lemma {:induction false} UnnamedIsLeftAlone(s: State, calls: seq<Call>, b: Block)
    requires Good(s) && AllPermitted(s, calls) && forall c | c in calls :: !Names(c, b)
    ensures LeftAlone(s, calls, b)
    decreases |calls|
  {
    if calls != [] {
      hide Effect;
      assert calls[0] in calls;
      UnnamedIsLeftAlone(Effect(s, calls[0]), calls[1..], b);
    }
  }

  /** What a run keeps, for a block that no call names. */
  lemma UnnamedKept(words: Words, words': Words, s: State, calls: seq<Call>)
    requires Good(s) && AllPermitted(s, calls) && AloneKept(words, words', s, calls)
    ensures forall b | b in Live(s.blocks) && (forall c | c in calls :: !Names(c, b)) ::
              b in Live(Effects(s, calls).blocks) && PayloadKept(words, words', b)
  {
    forall b | b in Live(s.blocks) && (forall c | c in calls :: !Names(c, b))
      ensures LeftAlone(s, calls, b)
    {
      UnnamedIsLeftAlone(s, calls, b);
    }
  }
}
