/**
  Four-level page tables as values: physical memory is a sequence of 64-bit words, 512 to a
  4 KiB frame.  This module says when such a memory holds a tree of tables, what partial map
  from virtual pages to frames the tree stands for, what the processor computes from it, and
  that the three kinds of write the kernel performs keep all of this intact.
 */
module PageTables {
  import opened Bits
  import opened Sizes
  import opened Pte

  const ENTRIES: nat := 512
  const VPN_LIMIT: nat := 0x10_0000_0000

  type Memory = seq<Word>

  /**
    A position in the tree: level 0 is the PML4, 1 a PDPT, 2 a page directory, 3 a page table
    and 4 a page.  The key is the virtual page number without the bits the level does not see.
   */
  datatype Node = Node(level: nat, key: nat) {
    function Parent(): Node
      requires level > 0
    {
      Node(level - 1, key / ENTRIES)
    }
  }

  const ROOT := Node(0, 0)

  /** The frame of every table of the tree. */
  type Tables = map<Node, nat>

  /** What a virtual page is mapped to. */
  datatype Page = Page(frame: nat, flags: nat) {
    predicate Valid() {
      frame < FRAME_LIMIT && ValidFlags(flags) && Present(flags)
    }
  }

  type Pages = map<nat, Page>

  function Slot(frame: nat, index: nat): nat {
    frame * ENTRIES + index
  }

  /** The word that holds the entry for position n. */
  function SlotOf(tables: Tables, n: Node): nat
    requires n.level > 0 && n.Parent() in tables
  {
    Slot(tables[n.Parent()], n.key % ENTRIES)
  }

  /** Table frames lie in memory and no two positions share one. */
  ghost predicate Frames(mem: Memory, tables: Tables) {
    && (forall n | n in tables :: n.level <= 3 && Slot(tables[n], ENTRIES) <= |mem|)
    && (forall n, m | n in tables && m in tables && tables[n] == tables[m] :: n == m)
  }

  ghost predicate HasEntry(tables: Tables, n: Node) {
    n.level > 0 && n.Parent() in tables
  }

  function Entry(mem: Memory, tables: Tables, n: Node): Word
    requires Frames(mem, tables) && HasEntry(tables, n)
  {
    mem[SlotOf(tables, n)]
  }

  /** Every present entry above the leaves leads to exactly one table, and the other way round. */
  ghost predicate Tree(mem: Memory, root: nat, tables: Tables) {
    && Frames(mem, tables)
    && ROOT in tables && tables[ROOT] == root
    && (forall n {:trigger HasEntry(tables, n)} | n in tables && n.level > 0 :: HasEntry(tables, n))
    && (forall n | n in tables && n.level == 0 :: n == ROOT)
    && (forall n | HasEntry(tables, n) && n.level <= 3 :: LinkOk(mem, tables, n))
  }

  ghost predicate LinkOk(mem: Memory, tables: Tables, n: Node)
    requires Frames(mem, tables) && HasEntry(tables, n)
  {
    var e := Entry(mem, tables, n);
    && (n in tables <==> Present(e))
    && (n in tables ==> FrameOf(e) == tables[n] && TableEntry(e))
  }

  /** The leaves of the tree are exactly the mapped pages. */
  ghost predicate Leaves(mem: Memory, tables: Tables, pages: Pages)
    requires Frames(mem, tables)
  {
    && (forall v | v in pages :: v < VPN_LIMIT && HasEntry(tables, Node(4, v)) && pages[v].Valid())
    && (forall n | HasEntry(tables, n) && n.level == 4 :: LeafOk(mem, tables, pages, n))
  }

  ghost predicate LeafOk(mem: Memory, tables: Tables, pages: Pages, n: Node)
    requires Frames(mem, tables) && HasEntry(tables, n)
  {
    var e := Entry(mem, tables, n);
    && (n.key in pages <==> Present(e))
    && (n.key in pages ==> e == MakeEntry(pages[n.key].frame, pages[n.key].flags))
  }

  /** The tables above a user page are open to user code. */
  ghost predicate UserPaths(mem: Memory, tables: Tables, pages: Pages)
    requires Frames(mem, tables)
  {
    forall v | v in pages && User(pages[v].flags) :: UserPath(mem, tables, Node(3, v / ENTRIES))
  }

  ghost predicate UserPath(mem: Memory, tables: Tables, n: Node)
    requires Frames(mem, tables)
    decreases n.level
  {
    n.level == 0 ||
    (n in tables && HasEntry(tables, n) && User(Entry(mem, tables, n)) && UserPath(mem, tables, n.Parent()))
  }

  /** The invariant of an address space. */
  ghost predicate Represents(mem: Memory, root: nat, tables: Tables, pages: Pages) {
    && Tree(mem, root, tables)
    && Leaves(mem, tables, pages)
    && UserPaths(mem, tables, pages)
  }

  // ---------- what the processor computes ----------

  datatype Translation =
    | NotMapped
    | Mapped(address: nat, user: bool, writable: bool, executable: bool)

  function Read(mem: Memory, frame: nat, index: nat): Word {
    if Slot(frame, index) < |mem| then mem[Slot(frame, index)] else 0
  }

  function Index(vaddr: Word, level: nat): nat
    requires level < 4
  {
    match level
    case 0 => vaddr / 0x80_0000_0000 % ENTRIES
    case 1 => vaddr / 0x4000_0000 % ENTRIES
    case 2 => vaddr / 0x20_0000 % ENTRIES
    case _ => vaddr / 0x1000 % ENTRIES
  }

  /** The address and rights of a linear address, section 4.5.4 and section 4.6 of volume 3A. */
  function Walk(mem: Memory, frame: nat, level: nat, vaddr: Word, user: bool, writable: bool, executable: bool): Translation
    requires level < 4
    decreases 4 - level
  {
    var e := Read(mem, frame, Index(vaddr, level));
    var user, writable, executable := user && User(e), writable && Writable(e), executable && !NoExecute(e);
    if !Present(e) then NotMapped
    else if level == 3 then Mapped(FrameOf(e) * 0x1000 + vaddr % 0x1000, user, writable, executable)
    else if level == 2 && Large(e) then
      Mapped(FrameOf(e) / 0x200 * 0x20_0000 + vaddr % 0x20_0000, user, writable, executable)
    else if level == 1 && Large(e) then
      Mapped(FrameOf(e) / 0x4_0000 * 0x4000_0000 + vaddr % 0x4000_0000, user, writable, executable)
    else Walk(mem, FrameOf(e), level + 1, vaddr, user, writable, executable)
  }

  function Translate(mem: Memory, root: nat, vaddr: Word): Translation {
    Walk(mem, root, 0, vaddr, true, true, true)
  }

  /** The virtual page number: bits 47:12. */
  function Vpn(vaddr: Word): nat {
    vaddr / 0x1000 % VPN_LIMIT
  }

  /** What the client's map says about a linear address. */
  function Lookup(pages: Pages, vaddr: Word): Translation {
    var v := Vpn(vaddr);
    if v !in pages then NotMapped
    else
      var Page(frame, flags) := pages[v];
      Mapped(frame * 0x1000 + vaddr % 0x1000, User(flags), Writable(flags), !NoExecute(flags))
  }

  // ---------- the processor and the client agree ----------

  /** The position at the given level on the path of a linear address. */
  function At(vaddr: Word, level: nat): Node
    requires level <= 4
  {
    var v := Vpn(vaddr);
    match level
    case 0 => ROOT
    case 1 => Node(1, v / 0x800_0000)
    case 2 => Node(2, v / 0x4_0000)
    case 3 => Node(3, v / 0x200)
    case _ => Node(4, v)
  }

  lemma Mod512(a: nat, b: nat)
    ensures (a * 0x200 + b) % 0x200 == b % 0x200
  {
  }

  lemma TopIndex(q: nat, v: nat)
    requires v < VPN_LIMIT
    ensures (q * VPN_LIMIT + v) / 0x800_0000 % ENTRIES == v / 0x800_0000
  {
    assert (q * VPN_LIMIT + v) / 0x800_0000 == q * 0x200 + v / 0x800_0000;
    Mod512(q, v / 0x800_0000);
  }

  lemma SecondIndex(q: nat, v: nat)
    ensures (q * VPN_LIMIT + v) / 0x4_0000 % ENTRIES == v / 0x4_0000 % ENTRIES
  {
    assert (q * VPN_LIMIT + v) / 0x4_0000 == (q * 0x200) * 0x200 + v / 0x4_0000;
    Mod512(q * 0x200, v / 0x4_0000);
  }

  lemma LowIndexes(q: nat, v: nat)
    ensures (q * VPN_LIMIT + v) / 0x200 % ENTRIES == v / 0x200 % ENTRIES
    ensures (q * VPN_LIMIT + v) % ENTRIES == v % ENTRIES
  {
    assert (q * VPN_LIMIT + v) / 0x200 == (q * 0x4_0000) * 0x200 + v / 0x200;
    Mod512(q * 0x4_0000, v / 0x200);
    Mod512(q * 0x800_0000, v);
  }

  lemma NestedShifts(x: nat)
    ensures x / 0x80_0000_0000 == x / 0x1000 / 0x800_0000
    ensures x / 0x4000_0000 == x / 0x1000 / 0x4_0000
    ensures x / 0x20_0000 == x / 0x1000 / 0x200
  {
  }

  lemma NestedKeys(v: nat)
    ensures v / 0x200 / 0x200 == v / 0x4_0000 && v / 0x4_0000 / 0x200 == v / 0x800_0000
    ensures v < VPN_LIMIT ==> v / 0x800_0000 < 0x200
  {
  }

  lemma PathStep(vaddr: Word, level: nat)
    requires level < 4
    ensures var n := At(vaddr, level + 1);
            n.level == level + 1 && n.Parent() == At(vaddr, level) && n.key % ENTRIES == Index(vaddr, level)
  {
    var q := vaddr / 0x1000 / VPN_LIMIT;
    assert vaddr / 0x1000 == q * VPN_LIMIT + Vpn(vaddr);
    TopIndex(q, Vpn(vaddr));
    SecondIndex(q, Vpn(vaddr));
    LowIndexes(q, Vpn(vaddr));
    NestedShifts(vaddr);
    NestedKeys(Vpn(vaddr));
  }

  lemma {:induction false} UserAbove(mem: Memory, tables: Tables, vaddr: Word, level: nat)
    requires Frames(mem, tables) && 1 <= level <= 3
    requires UserPath(mem, tables, At(vaddr, 3))
    ensures HasEntry(tables, At(vaddr, level)) && User(Entry(mem, tables, At(vaddr, level)))
    ensures UserPath(mem, tables, At(vaddr, level))
    decreases 3 - level
  {
    PathStep(vaddr, level - 1);
    if level < 3 {
      UserAbove(mem, tables, vaddr, level + 1);
      PathStep(vaddr, level);
    }
  }

  /** The word the walk reads at a level is the entry of the next position on the path. */
  lemma WalkReads(mem: Memory, root: nat, tables: Tables, vaddr: Word, level: nat)
    requires Tree(mem, root, tables) && level < 4 && At(vaddr, level) in tables
    ensures var n := At(vaddr, level + 1);
            && n.level == level + 1 && HasEntry(tables, n)
            && Read(mem, tables[At(vaddr, level)], Index(vaddr, level)) == Entry(mem, tables, n)
            && (level < 3 ==> LinkOk(mem, tables, n))
  {
    PathStep(vaddr, level);
  }

  lemma WalkLeaf(mem: Memory, root: nat, tables: Tables, pages: Pages, vaddr: Word, user: bool)
    requires Represents(mem, root, tables, pages) && At(vaddr, 3) in tables
    requires Vpn(vaddr) in pages && User(pages[Vpn(vaddr)].flags) ==> user
    ensures Walk(mem, tables[At(vaddr, 3)], 3, vaddr, user, true, true) == Lookup(pages, vaddr)
  {
    var v := Vpn(vaddr);
    WalkReads(mem, root, tables, vaddr, 3);
    assert LeafOk(mem, tables, pages, At(vaddr, 4));
    if v in pages {
      EntryFields(pages[v].frame, pages[v].flags);
    }
  }

  lemma {:induction false} WalkFollowsTree(mem: Memory, root: nat, tables: Tables, pages: Pages,
                                           vaddr: Word, level: nat, user: bool)
    requires Represents(mem, root, tables, pages) && level < 4 && At(vaddr, level) in tables
    requires Vpn(vaddr) in pages && User(pages[Vpn(vaddr)].flags) ==> user
    ensures Walk(mem, tables[At(vaddr, level)], level, vaddr, user, true, true) == Lookup(pages, vaddr)
    decreases 4 - level
  {
    if level == 3 {
      WalkLeaf(mem, root, tables, pages, vaddr, user);
    } else {
      WalkReads(mem, root, tables, vaddr, level);
      var e := Entry(mem, tables, At(vaddr, level + 1));
      PathIsOpen(mem, root, tables, pages, vaddr, level + 1);
      if Present(e) {
        WalkFollowsTree(mem, root, tables, pages, vaddr, level + 1, user && User(e));
      }
    }
  }

  /** Above a mapped page every table exists, and is open to user code if the page is. */
  lemma PathIsOpen(mem: Memory, root: nat, tables: Tables, pages: Pages, vaddr: Word, level: nat)
    requires Represents(mem, root, tables, pages) && 1 <= level <= 3
    ensures Vpn(vaddr) in pages ==>
              && At(vaddr, level) in tables && HasEntry(tables, At(vaddr, level))
              && (User(pages[Vpn(vaddr)].flags) ==> User(Entry(mem, tables, At(vaddr, level))))
  {
    if Vpn(vaddr) in pages {
      PageHasTables(mem, root, tables, pages, vaddr, level);
      PathStep(vaddr, level - 1);
      if User(pages[Vpn(vaddr)].flags) {
        UserAbove(mem, tables, vaddr, level);
      }
    }
  }

  /** Every table above a mapped page exists. */
  lemma {:induction false} PageHasTables(mem: Memory, root: nat, tables: Tables, pages: Pages, vaddr: Word, level: nat)
    requires Represents(mem, root, tables, pages) && Vpn(vaddr) in pages && level <= 3
    ensures At(vaddr, level) in tables
    decreases 3 - level
  {
    PathStep(vaddr, level);
    if level < 3 {
      PageHasTables(mem, root, tables, pages, vaddr, level + 1);
    }
  }

  /** The processor's translation and rights are those of the client's map, for every address. */
  lemma TranslationIsLookup(mem: Memory, root: nat, tables: Tables, pages: Pages, vaddr: Word)
    requires Represents(mem, root, tables, pages)
    ensures Translate(mem, root, vaddr) == Lookup(pages, vaddr)
  {
    WalkFollowsTree(mem, root, tables, pages, vaddr, 0, true);
  }

  // ---------- the writes of the kernel ----------

  /** Two positions never share an entry. */
  lemma SlotsApart(mem: Memory, tables: Tables, n: Node, m: Node)
    requires Frames(mem, tables) && HasEntry(tables, n) && HasEntry(tables, m)
    requires SlotOf(tables, n) == SlotOf(tables, m)
    ensures n == m
  {
    assert tables[n.Parent()] == tables[m.Parent()];
    assert n.key == n.key / ENTRIES * ENTRIES + n.key % ENTRIES;
    assert m.key == m.key / ENTRIES * ENTRIES + m.key % ENTRIES;
  }

  /** Whatever is open to user code stays open. */
  ghost predicate Opens(mem: Memory, tables: Tables, mem': Memory, tables': Tables)
    requires Frames(mem, tables) && Frames(mem', tables')
  {
    forall m | m in tables && HasEntry(tables, m) && User(Entry(mem, tables, m)) ::
      m in tables' && HasEntry(tables', m) && User(Entry(mem', tables', m))
  }

  lemma {:induction false} UserPathKept(mem: Memory, tables: Tables, mem': Memory, tables': Tables, n: Node)
    requires Frames(mem, tables) && Frames(mem', tables') && Opens(mem, tables, mem', tables')
    requires UserPath(mem, tables, n) && n.level <= 3
    ensures UserPath(mem', tables', n)
    decreases n.level
  {
    if n.level > 0 {
      UserPathKept(mem, tables, mem', tables', n.Parent());
    }
  }

  lemma UserPathsKept(mem: Memory, tables: Tables, mem': Memory, tables': Tables, pages: Pages)
    requires Frames(mem, tables) && Frames(mem', tables') && Opens(mem, tables, mem', tables')
    requires UserPaths(mem, tables, pages)
    ensures UserPaths(mem', tables', pages)
  {
    forall v | v in pages && User(pages[v].flags)
      ensures UserPath(mem', tables', Node(3, v / ENTRIES))
    {
      UserPathKept(mem, tables, mem', tables', Node(3, v / ENTRIES));
    }
  }

  /** Rewriting one entry leaves the others as they were. */
  lemma EntryAfterWrite(mem: Memory, tables: Tables, n: Node, e: Word, m: Node)
    requires Frames(mem, tables) && HasEntry(tables, n) && HasEntry(tables, m)
    ensures Frames(mem[SlotOf(tables, n) := e], tables)
    ensures Entry(mem[SlotOf(tables, n) := e], tables, m) == if m == n then e else Entry(mem, tables, m)
  {
    if m != n && SlotOf(tables, n) == SlotOf(tables, m) {
      SlotsApart(mem, tables, n, m);
    }
  }

  /** The upgrade of an existing entry: same table, more rights. */
  lemma UpgradeKeeps(mem: Memory, root: nat, tables: Tables, pages: Pages, n: Node, e: Word)
    requires Represents(mem, root, tables, pages) && n in tables && n.level > 0
    requires TableEntry(e) && FrameOf(e) == tables[n]
    requires User(Entry(mem, tables, n)) ==> User(e)
    ensures var mem' := mem[SlotOf(tables, n) := e];
            Represents(mem', root, tables, pages) && Opens(mem, tables, mem', tables)
  {
    assert HasEntry(tables, n);
    var mem' := mem[SlotOf(tables, n) := e];
    EntryAfterWrite(mem, tables, n, e, n);
    forall m | HasEntry(tables, m)
      ensures Entry(mem', tables, m) == if m == n then e else Entry(mem, tables, m)
      ensures m.level <= 3 ==> LinkOk(mem', tables, m)
      ensures m.level == 4 ==> LeafOk(mem', tables, pages, m)
    {
      EntryAfterWrite(mem, tables, n, e, m);
      assert m.level <= 3 ==> LinkOk(mem, tables, m);
      assert m.level == 4 ==> LeafOk(mem, tables, pages, m);
    }
    UserPathsKept(mem, tables, mem', tables, pages);
  }

  /** The memory after a fresh frame f has been zeroed and entered at position n. */
  ghost predicate TableAdded(mem: Memory, tables: Tables, n: Node, f: nat, e: Word, mem': Memory)
    requires Frames(mem, tables) && HasEntry(tables, n)
  {
    && |mem'| == |mem|
    && mem'[SlotOf(tables, n)] == e
    && (forall w | 0 <= w < |mem| && w / ENTRIES == f :: mem'[w] == 0)
    && (forall w | 0 <= w < |mem| && w / ENTRIES != f && w != SlotOf(tables, n) :: mem'[w] == mem[w])
  }

  ghost predicate CanAdd(mem: Memory, root: nat, tables: Tables, n: Node, f: nat, e: Word, mem': Memory) {
    && Tree(mem, root, tables)
    && HasEntry(tables, n) && n.level <= 3 && n !in tables
    && (forall m | m in tables :: tables[m] != f) && Slot(f, ENTRIES) <= |mem|
    && TableEntry(e) && FrameOf(e) == f
    && TableAdded(mem, tables, n, f, e, mem')
  }

  lemma EntryAfterAdd(mem: Memory, root: nat, tables: Tables, n: Node, f: nat, e: Word, mem': Memory, m: Node)
    requires CanAdd(mem, root, tables, n, f, e, mem') && HasEntry(tables[n := f], m)
    ensures Frames(mem', tables[n := f])
    ensures HasEntry(tables, m) <==> m.Parent() != n
    ensures Entry(mem', tables[n := f], m) ==
            if m == n then e else if m.Parent() == n then 0 else Entry(mem, tables, m)
  {
    if m.Parent() == n {
      var w := Slot(f, m.key % ENTRIES);
      assert w / ENTRIES == f;
    } else {
      var w := SlotOf(tables, m);
      assert w / ENTRIES == tables[m.Parent()];
      if m != n && w == SlotOf(tables, n) {
        SlotsApart(mem, tables, n, m);
      }
    }
  }

  lemma LinkAfterAdd(mem: Memory, root: nat, tables: Tables, n: Node, f: nat, e: Word, mem': Memory, m: Node)
    requires CanAdd(mem, root, tables, n, f, e, mem') && HasEntry(tables[n := f], m) && m.level <= 3
    ensures Frames(mem', tables[n := f]) && LinkOk(mem', tables[n := f], m)
  {
    EntryAfterAdd(mem, root, tables, n, f, e, mem', m);
    if m.Parent() != n {
      assert LinkOk(mem, tables, m);
    }
  }

  lemma LeafAfterAdd(mem: Memory, root: nat, tables: Tables, pages: Pages, n: Node, f: nat, e: Word, mem': Memory, m: Node)
    requires CanAdd(mem, root, tables, n, f, e, mem') && Leaves(mem, tables, pages)
    requires HasEntry(tables[n := f], m) && m.level == 4
    ensures Frames(mem', tables[n := f]) && LeafOk(mem', tables[n := f], pages, m)
  {
    EntryAfterAdd(mem, root, tables, n, f, e, mem', m);
    assert m == Node(4, m.key);
    if m.Parent() != n {
      assert LeafOk(mem, tables, pages, m);
    }
  }

  /** A fresh zeroed table joins the tree; the map of pages does not change. */
  lemma TableAddedKeeps(mem: Memory, root: nat, tables: Tables, pages: Pages, n: Node, f: nat, e: Word, mem': Memory)
    requires Represents(mem, root, tables, pages) && CanAdd(mem, root, tables, n, f, e, mem')
    ensures Represents(mem', root, tables[n := f], pages)
    ensures Opens(mem, tables, mem', tables[n := f])
  {
    hide CanAdd;
    hide Entry;
    hide LinkOk;
    hide LeafOk;
    hide Opens;
    hide UserPaths;
    var tables' := tables[n := f];
    AddedToTree(mem, root, tables, n, f, e, mem');
    forall m | HasEntry(tables', m) && m.level == 4
      ensures LeafOk(mem', tables', pages, m)
    {
      LeafAfterAdd(mem, root, tables, pages, n, f, e, mem', m);
    }
    AddedOpens(mem, root, tables, n, f, e, mem');
    UserPathsKept(mem, tables, mem', tables', pages);
  }

  /** The tree has one more table. */
  lemma AddedToTree(mem: Memory, root: nat, tables: Tables, n: Node, f: nat, e: Word, mem': Memory)
    requires CanAdd(mem, root, tables, n, f, e, mem')
    ensures Tree(mem', root, tables[n := f])
  {
    hide Entry;
    hide LinkOk;
    EntryAfterAdd(mem, root, tables, n, f, e, mem', n);
    forall m | m in tables[n := f] && m.level > 0
      ensures HasEntry(tables[n := f], m)
    {
      assert HasEntry(tables, m);
    }
    forall m | HasEntry(tables[n := f], m) && m.level <= 3
      ensures LinkOk(mem', tables[n := f], m)
    {
      LinkAfterAdd(mem, root, tables, n, f, e, mem', m);
    }
  }

  /** Nothing that was open is closed. */
  lemma AddedOpens(mem: Memory, root: nat, tables: Tables, n: Node, f: nat, e: Word, mem': Memory)
    requires CanAdd(mem, root, tables, n, f, e, mem')
    ensures Frames(mem, tables) && Frames(mem', tables[n := f]) && Opens(mem, tables, mem', tables[n := f])
  {
    hide Entry;
    EntryAfterAdd(mem, root, tables, n, f, e, mem', n);
    forall m | m in tables && HasEntry(tables, m)
      ensures Entry(mem', tables[n := f], m) == Entry(mem, tables, m)
    {
      EntryAfterAdd(mem, root, tables, n, f, e, mem', m);
    }
  }

  /** The leaf at n now maps its page as pages' says, or not at all. */
  ghost predicate LeafWrite(mem: Memory, tables: Tables, pages: Pages, n: Node, e: Word, pages': Pages)
    requires Frames(mem, tables)
  {
    && HasEntry(tables, n) && n.level == 4 && n.key < VPN_LIMIT
    && (forall v | v != n.key :: v in pages' <==> v in pages)
    && (forall v | v != n.key && v in pages' :: pages'[v] == pages[v])
    && (n.key in pages' <==> Present(e))
    && (n.key in pages' ==>
          && pages'[n.key].Valid() && e == MakeEntry(pages'[n.key].frame, pages'[n.key].flags)
          && (User(pages'[n.key].flags) ==> UserPath(mem, tables, n.Parent())))
  }

  lemma LeafAfterWrite(mem: Memory, root: nat, tables: Tables, pages: Pages, n: Node, e: Word, pages': Pages, m: Node)
    requires Represents(mem, root, tables, pages) && LeafWrite(mem, tables, pages, n, e, pages')
    requires HasEntry(tables, m)
    ensures Frames(mem[SlotOf(tables, n) := e], tables)
    ensures m.level <= 3 ==>
              && Entry(mem[SlotOf(tables, n) := e], tables, m) == Entry(mem, tables, m)
              && LinkOk(mem[SlotOf(tables, n) := e], tables, m)
    ensures m.level == 4 ==> LeafOk(mem[SlotOf(tables, n) := e], tables, pages', m)
  {
    EntryAfterWrite(mem, tables, n, e, m);
    if m.level <= 3 {
      assert LinkOk(mem, tables, m);
    } else if m.level == 4 {
      assert LeafOk(mem, tables, pages, m);
      assert m == Node(4, m.key) && n == Node(4, n.key);
    }
  }

  /** A write to a leaf entry changes the mapping of that page and of no other. */
  lemma LeafWriteKeeps(mem: Memory, root: nat, tables: Tables, pages: Pages, n: Node, e: Word, pages': Pages)
    requires Represents(mem, root, tables, pages) && LeafWrite(mem, tables, pages, n, e, pages')
    ensures Represents(mem[SlotOf(tables, n) := e], root, tables, pages')
  {
    var mem' := mem[SlotOf(tables, n) := e];
    EntryAfterWrite(mem, tables, n, e, n);
    forall m | HasEntry(tables, m)
      ensures m.level <= 3 ==> Entry(mem', tables, m) == Entry(mem, tables, m) && LinkOk(mem', tables, m)
      ensures m.level == 4 ==> LeafOk(mem', tables, pages', m)
    {
      LeafAfterWrite(mem, root, tables, pages, n, e, pages', m);
    }
    assert Tree(mem', root, tables);
    assert Leaves(mem', tables, pages') by {
      assert n == Node(4, n.key);
    }
    LeafUserPaths(mem, tables, pages, n, mem', pages');
  }

  lemma LeafUserPaths(mem: Memory, tables: Tables, pages: Pages, n: Node, mem': Memory, pages': Pages)
    requires Frames(mem, tables) && Frames(mem', tables) && UserPaths(mem, tables, pages)
    requires forall m | HasEntry(tables, m) && m.level <= 3 :: Entry(mem', tables, m) == Entry(mem, tables, m)
    requires n.level == 4 && (forall v | v != n.key && v in pages' :: v in pages && pages'[v] == pages[v])
    requires n.key in pages' && User(pages'[n.key].flags) ==> UserPath(mem, tables, n.Parent())
    ensures UserPaths(mem', tables, pages')
  {
    forall v | v in pages' && User(pages'[v].flags)
      ensures UserPath(mem', tables, Node(3, v / ENTRIES))
    {
      UserPathKept(mem, tables, mem', tables, Node(3, v / ENTRIES));
    }
  }

  /** A store to a word outside the table frames does not disturb the tree. */
  lemma DataWriteKeeps(mem: Memory, root: nat, tables: Tables, pages: Pages, w: nat, value: Word)
    requires Represents(mem, root, tables, pages)
    requires w < |mem| && (forall n | n in tables :: tables[n] != w / ENTRIES)
    ensures Represents(mem[w := value], root, tables, pages)
  {
    hide Entry;
    hide UserPath;
    hide Represents;
    FramesOf(mem, root, tables, pages);
    forall n | HasEntry(tables, n)
      ensures Entry(mem[w := value], tables, n) == Entry(mem, tables, n)
    {
      EntryAfterDataWrite(mem, tables, w, value, n);
    }
    SameEntries(mem, mem[w := value], root, tables, pages);
  }

  lemma FramesOf(mem: Memory, root: nat, tables: Tables, pages: Pages)
    requires Represents(mem, root, tables, pages)
    ensures Frames(mem, tables)
  {
  }

  /** The tree is its entries. */
  lemma SameEntries(mem: Memory, mem': Memory, root: nat, tables: Tables, pages: Pages)
    requires Represents(mem, root, tables, pages) && Frames(mem', tables)
    requires forall n | HasEntry(tables, n) :: Entry(mem', tables, n) == Entry(mem, tables, n)
    ensures Represents(mem', root, tables, pages)
  {
    hide Entry;
    hide UserPath;
    forall n | HasEntry(tables, n)
      ensures n.level <= 3 ==> LinkOk(mem', tables, n)
      ensures n.level == 4 ==> LeafOk(mem', tables, pages, n)
    {
      if n.level <= 3 {
        assert LinkOk(mem, tables, n);
      } else if n.level == 4 {
        assert LeafOk(mem, tables, pages, n);
      }
    }
    UserPathsKept(mem, tables, mem', tables, pages);
  }

  lemma EntryAfterDataWrite(mem: Memory, tables: Tables, w: nat, value: Word, n: Node)
    requires Frames(mem, tables) && HasEntry(tables, n)
    requires w < |mem| && (forall n | n in tables :: tables[n] != w / ENTRIES)
    ensures Frames(mem[w := value], tables) && Entry(mem[w := value], tables, n) == Entry(mem, tables, n)
  {
    assert SlotOf(tables, n) / ENTRIES == tables[n.Parent()];
  }
}
