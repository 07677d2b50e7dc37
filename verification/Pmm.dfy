/**
  The physical memory manager of mm/pmm.c: a first-fit allocator of 4 KiB pages over a bitmap.

  Pages are numbered; the address of page i is `i * PAGE_SIZE`.  A set bit means "used".
  Address 0 is also the answer "out of memory", so page 0 is handed out under that name
  when the memory map lets it be free; the contracts say exactly when.
 */
module Pmm {
  import opened Sizes
  import B = Bitmap

  /** The page numbers from lo up to but not including hi. */
  ghost function Range(lo: nat, hi: nat): (r: set<nat>)
    ensures forall p :: p in r <==> lo <= p < hi
  {
    if lo >= hi then {} else Range(lo, hi - 1) + {hi - 1}
  }

  // ---------- the memory map ----------

  datatype Entry = Entry(base: nat, length: nat, usable: bool) {
    function Top(): nat {
      base + length
    }

    /** The numbers of the pages of a page-aligned region. */
    ghost function Pages(): set<nat> {
      Range(base / PAGE_SIZE, Top() / PAGE_SIZE)
    }

    predicate Aligned() {
      base % PAGE_SIZE == 0 && length % PAGE_SIZE == 0 && Top() <= FRAME_LIMIT * PAGE_SIZE
    }
  }

  ghost predicate Disjoint(e: Entry, f: Entry) {
    e.Top() <= f.base || f.Top() <= e.base
  }

  /** What the boot loader promises of its map. */
  ghost predicate ValidMap(entries: seq<Entry>) {
    && (forall i | 0 <= i < |entries| :: entries[i].Top() <= FRAME_LIMIT * PAGE_SIZE)
    && (forall i | 0 <= i < |entries| :: entries[i].usable ==> entries[i].Aligned())
    && (forall i, j | 0 <= i < j < |entries| ::
          entries[i].usable && entries[j].usable ==> Disjoint(entries[i], entries[j]))
  }

  ghost function UsablePages(entries: seq<Entry>): set<nat> {
    if entries == [] then {}
    else
      var last := entries[|entries| - 1];
      UsablePages(entries[..|entries| - 1]) + if last.usable then last.Pages() else {}
  }

  ghost predicate Fits(e: Entry, size: nat) {
    e.usable && e.length >= size
  }

  /** The pages that hold `size` bytes starting at address `start`. */
  ghost predicate Holds(start: nat, size: nat, p: nat) {
    start <= p * PAGE_SIZE < start + size
  }

  lemma {:induction false} UsablePagesAre(entries: seq<Entry>, p: nat)
    ensures p in UsablePages(entries) <==>
            exists i :: 0 <= i < |entries| && entries[i].usable && p in entries[i].Pages()
  {
    if entries != [] {
      var n := |entries| - 1;
      UsablePagesAre(entries[..n], p);
      assert forall i | 0 <= i < n :: entries[..n][i] == entries[i];
    }
  }

  lemma {:induction false} RangeSize(lo: nat, hi: nat)
    requires lo <= hi
    ensures |Range(lo, hi)| == hi - lo
    decreases hi
  {
    if lo < hi {
      RangeSize(lo, hi - 1);
    }
  }

  lemma EntrySize(e: Entry)
    requires e.Aligned()
    ensures PAGE_SIZE * |e.Pages()| == e.length
  {
    RangeSize(e.base / PAGE_SIZE, e.Top() / PAGE_SIZE);
  }

  /** The pages of one usable entry are new when the entries do not overlap. */
  lemma FreshEntry(entries: seq<Entry>, n: nat)
    requires ValidMap(entries) && n < |entries| && entries[n].usable
    ensures UsablePages(entries[..n]) !! entries[n].Pages()
  {
    forall p | p in entries[n].Pages()
      ensures p !in UsablePages(entries[..n])
    {
      UsablePagesAre(entries[..n], p);
      forall i | 0 <= i < n && entries[..n][i].usable
        ensures p !in entries[..n][i].Pages()
      {
        assert Disjoint(entries[i], entries[n]);
      }
    }
  }

  /** A run of `count` free pages starting at page i. */
  ghost predicate Run(free: set<nat>, i: nat, count: nat) {
    forall k | i <= k < i + count :: k in free
  }

  ghost predicate FirstRun(free: set<nat>, i: nat, count: nat) {
    Run(free, i, count) && forall s: nat | s < i :: !Run(free, s, count)
  }

  class Allocator {
    const bitmap: array<bv8>
    const highestPage: nat
    const totalMemory: nat
    var freeMemory: nat
    var usedMemory: nat

    /** The pages the allocator may ever hand out. */
    ghost const managed: set<nat>

    /** The pages whose bit is clear, and the bits that are set. */
    ghost var free: set<nat>
    ghost var used: set<nat>

    /** The bitmap holds a bit for every page, and `free` is its clear bits. */
    ghost predicate BitsMatch()
      reads this, bitmap
    {
      && bitmap.Length == highestPage / 8 + 1
      && B.Represents(bitmap[..], used)
      && (forall p: nat :: p in free <==> p < highestPage && p !in used)
    }

    ghost predicate Valid()
      reads this, bitmap
    {
      && highestPage <= FRAME_LIMIT
      && BitsMatch()
      && (forall p | p in managed :: 0 <= p < highestPage)
      && free <= managed
      && totalMemory >= PAGE_SIZE * |managed|
      && freeMemory == PAGE_SIZE * |free|
      && usedMemory + freeMemory == totalMemory
    }

    /** The state `pmm_init` leaves: `free` are the clear bits of the bitmap it has filled in. */
    constructor (bitmap: array<bv8>, highestPage: nat, totalMemory: nat, freeMemory: nat,
                 ghost free: set<nat>, ghost used: set<nat>)
      requires highestPage <= FRAME_LIMIT && bitmap.Length == highestPage / 8 + 1
      requires B.Represents(bitmap[..], used)
      requires forall p: nat :: p in free <==> p < highestPage && p !in used
      requires freeMemory == PAGE_SIZE * |free| && freeMemory <= totalMemory
      ensures Valid() && this.bitmap == bitmap && this.highestPage == highestPage
      ensures this.free == free == managed && this.totalMemory == totalMemory
    {
      this.bitmap := bitmap;
      this.highestPage := highestPage;
      this.totalMemory := totalMemory;
      this.freeMemory := freeMemory;
      this.usedMemory := totalMemory - freeMemory;
      this.free := free;
      this.used := used;
      this.managed := free;
    }

    /** `pmm_alloc_page`: the lowest free page, or 0 when there is none. */
    method AllocPage() returns (address: nat)
      requires Valid()
      modifies this, bitmap
      ensures Valid()
      ensures old(free) == {} ==> address == 0 && free == {}
      ensures freeMemory == old(freeMemory) - (if old(free) == {} then 0 else 4096)
      ensures usedMemory == old(usedMemory) + (if old(free) == {} then 0 else 4096)
      ensures old(free) != {} ==>
                && address % PAGE_SIZE == 0 && address / PAGE_SIZE in old(free)
                && (forall p | p in old(free) :: address / PAGE_SIZE <= p)
                && free == old(free) - {address / PAGE_SIZE}
    {
      for i := 0 to highestPage
        invariant Valid() && free == old(free)
        invariant forall p | p in free :: i <= p
      {
        var isUsed := B.IsSet(bitmap, i, used);
        if !isUsed {
          TakeBit(i);
          freeMemory := freeMemory - PAGE_SIZE;
          usedMemory := usedMemory + PAGE_SIZE;
          return i * PAGE_SIZE;
        }
      }
      return 0;
    }

    /** `bitmap_set(bitmap, i)` on a free page. */
    method TakeBit(i: nat)
      requires BitsMatch() && i in free
      modifies bitmap, this`used, this`free
      ensures BitsMatch() && free == old(free) - {i} && |free| == old(|free|) - 1
    {
      B.Set(bitmap, i, used);
      used := used + {i};
      free := free - {i};
    }

    /** `bitmap_clear(bitmap, i)` on a used page. */
    method DropBit(i: nat)
      requires BitsMatch() && i < highestPage && i !in free
      modifies bitmap, this`used, this`free
      ensures BitsMatch() && free == old(free) + {i} && |free| == old(|free|) + 1
    {
      B.Clear(bitmap, i, used);
      used := used - {i};
      free := free + {i};
    }

    /** `pmm_free_page`: addresses above memory and pages already free are ignored. */
    method FreePage(address: nat)
      requires Valid()
      requires address / PAGE_SIZE < highestPage ==> address / PAGE_SIZE in managed
      modifies this, bitmap
      ensures Valid()
      ensures free == if address / PAGE_SIZE < highestPage then old(free) + {address / PAGE_SIZE} else old(free)
      ensures freeMemory == old(freeMemory) + (if free == old(free) then 0 else 4096)
      ensures usedMemory == old(usedMemory) - (if free == old(free) then 0 else 4096)
    {
      var index := address / PAGE_SIZE;
      if index >= highestPage {
        return;
      }
      var isUsed := B.IsSet(bitmap, index, used);
      if isUsed {
        DropBit(index);
        SubsetSize(free, managed);
        freeMemory := freeMemory + PAGE_SIZE;
        usedMemory := usedMemory - PAGE_SIZE;
      }
    }

    /** `pmm_alloc_pages`: the lowest run of `count` free pages, or 0 when there is none. */
    method AllocPages(count: nat) returns (address: nat)
      requires Valid()
      modifies this, bitmap
      ensures Valid()
      ensures count == 0 || (forall i: nat :: !Run(old(free), i, count)) ==> address == 0 && free == old(free)
      ensures count > 0 && (exists i: nat :: Run(old(free), i, count)) ==>
                && address % PAGE_SIZE == 0
                && FirstRun(old(free), address / PAGE_SIZE, count)
                && free == old(free) - Range(address / PAGE_SIZE, address / PAGE_SIZE + count)
                && freeMemory == old(freeMemory) - 4096 * count && usedMemory == old(usedMemory) + 4096 * count
    {
      hide B.Represents;
      if count == 0 {
        return 0;
      }
      var i := 0;
      while i < highestPage
        invariant Valid() && free == old(free)
        invariant forall s: nat | s < i :: !Run(free, s, count)
      {
        var isUsed := IsUsed(i);
        if !isUsed {
          var found, j := CheckRun(i, count);
          if found {
            OnlyMultiple(i);
            MarkUsed(i, count);
            return i * PAGE_SIZE;
          }
          i := i + j;
        }
        assert i !in free;
        i := i + 1;
      }
      forall s: nat
        ensures !Run(free, s, count)
      {
        assert s >= highestPage ==> s !in free;
      }
      return 0;
    }

    /** `bitmap_test(bitmap, i)` below highest_page */
    method IsUsed(i: nat) returns (r: bool)
      requires Valid() && i < highestPage
      ensures r <==> i !in free
    {
      r := B.IsSet(bitmap, i, used);
    }

    /** The inner loop of `pmm_alloc_pages`: whether `count` pages are free from page i on, or how far the first used one is. */
    method CheckRun(i: nat, count: nat) returns (found: bool, j: nat)
      requires Valid() && i in free && count > 0
      ensures if found then Run(free, i, count) else j < count && i + j !in free && forall k | i <= k < i + j :: k in free
    {
      j := 1;
      while j < count
        invariant 1 <= j <= count && (forall k | i <= k < i + j :: k in free)
      {
        var taken := true;
        if i + j < highestPage {
          taken := IsUsed(i + j);
        }
        if taken {
          return false, j;
        }
        j := j + 1;
      }
      found := true;
    }

    /** The marking loop of `pmm_alloc_pages`, with its counter update. */
    method MarkUsed(i: nat, count: nat)
      requires Valid() && Run(free, i, count)
      modifies this, bitmap
      ensures Valid() && free == old(free) - Range(i, i + count)
      ensures freeMemory == old(freeMemory) - 4096 * count && usedMemory == old(usedMemory) + 4096 * count
    {
      for j := 0 to count
        invariant BitsMatch()
        invariant forall p :: p in free <==> p in old(free) && !(i <= p < i + j)
        invariant |free| + j == old(|free|)
        invariant freeMemory == old(freeMemory) && usedMemory == old(usedMemory)
      {
        assert i + j in old(free);
        TakeBit(i + j);
      }
      freeMemory := freeMemory - count * PAGE_SIZE;
      usedMemory := usedMemory + count * PAGE_SIZE;
    }

    /** `pmm_free_pages`, for a run of pages the allocator handed out. */
    method FreePages(address: nat, count: nat)
      requires Valid()
      requires forall k | address / PAGE_SIZE <= k < address / PAGE_SIZE + count :: k in managed && k !in free
      modifies this, bitmap
      ensures Valid()
      ensures free == old(free) + Range(address / PAGE_SIZE, address / PAGE_SIZE + count)
      ensures freeMemory == old(freeMemory) + 4096 * count && usedMemory == old(usedMemory) - 4096 * count
    {
      var start := address / PAGE_SIZE;
      for i := 0 to count
        invariant BitsMatch()
        invariant forall p :: p in free <==> p in old(free) || start <= p < start + i
        invariant |free| == old(|free|) + i
        invariant freeMemory == old(freeMemory) && usedMemory == old(usedMemory)
      {
        assert start + i in managed && start + i !in old(free);
        if start + i < highestPage {
          DropBit(start + i);
        }
      }
      assert free <= managed;
      SubsetSize(free, managed);
      freeMemory := freeMemory + count * PAGE_SIZE;
      usedMemory := usedMemory - count * PAGE_SIZE;
    }
  }

  /** The first usable region that can hold the bitmap. */
  ghost predicate BitmapSpot(entries: seq<Entry>, size: nat, n: nat) {
    n < |entries| && Fits(entries[n], size) && forall i | 0 <= i < n :: !Fits(entries[i], size)
  }

  ghost function HighestAddress(entries: seq<Entry>): (r: nat)
    ensures forall i | 0 <= i < |entries| :: entries[i].Top() <= r
    ensures r == 0 || exists i :: 0 <= i < |entries| && entries[i].Top() == r
  {
    if entries == [] then 0
    else
      var n := |entries| - 1;
      var r := HighestAddress(entries[..n]);
      assert forall i | 0 <= i < n :: entries[..n][i] == entries[i];
      if entries[n].Top() > r then entries[n].Top() else r
  }

  /** Step 1 of `pmm_init`: the highest address and the amount of usable memory. */
  method Scan(entries: seq<Entry>) returns (highestAddress: nat, totalMemory: nat)
    requires ValidMap(entries)
    ensures highestAddress == HighestAddress(entries)
    ensures totalMemory == PAGE_SIZE * |UsablePages(entries)|
  {
    highestAddress, totalMemory := 0, 0;
    for n := 0 to |entries|
      invariant highestAddress == HighestAddress(entries[..n])
      invariant totalMemory == PAGE_SIZE * |UsablePages(entries[..n])|
    {
      assert entries[..n + 1][..n] == entries[..n];
      if entries[n].Top() > highestAddress {
        highestAddress := entries[n].Top();
      }
      if entries[n].usable {
        FreshEntry(entries, n);
        EntrySize(entries[n]);
        UnionSize(UsablePages(entries[..n]), entries[n].Pages());
        totalMemory := totalMemory + entries[n].length;
      }
    }
    assert entries[..|entries|] == entries;
  }

  /** Step 2: the first usable region that can hold the bitmap, or |entries|. */
  method FindSpot(entries: seq<Entry>, size: nat) returns (spot: nat)
    ensures spot == |entries| ==> forall i | 0 <= i < |entries| :: !Fits(entries[i], size)
    ensures spot != |entries| ==> BitmapSpot(entries, size, spot)
  {
    spot := 0;
    while spot < |entries| && !(entries[spot].usable && entries[spot].length >= size)
      invariant spot <= |entries|
      invariant forall i | 0 <= i < spot :: !Fits(entries[i], size)
    {
      spot := spot + 1;
    }
  }

  /** Step 3, for one usable region: clear the bits of its pages, except those that hold the bitmap. */
  method ClearRegion(bitmap: array<bv8>, e: Entry, start: nat, size: nat, freeMemory: nat,
                     ghost free: set<nat>, ghost used: set<nat>)
    returns (freeMemory': nat, ghost free': set<nat>)
    requires e.Aligned() && e.Top() / PAGE_SIZE <= 8 * bitmap.Length
    requires free !! e.Pages() && freeMemory == PAGE_SIZE * |free|
    requires B.Represents(bitmap[..], used - free)
    modifies bitmap
    ensures B.Represents(bitmap[..], used - free')
    ensures forall p: nat :: p in free' <==> p in free || (p in e.Pages() && !Holds(start, size, p))
    ensures freeMemory' == PAGE_SIZE * |free'|
  {
    hide B.Represents;
    freeMemory', free' := freeMemory, free;
    OnlyPages(e);
    var address := e.base;
    ghost var next := e.base / PAGE_SIZE;
    while address < e.Top()
      invariant address == next * PAGE_SIZE && e.base <= address <= e.Top()
      invariant B.Represents(bitmap[..], used - free')
      invariant forall p: nat :: p in free' <==>
                p in free || (e.base / PAGE_SIZE <= p < next && !Holds(start, size, p))
      invariant freeMemory' == PAGE_SIZE * |free'|
      decreases e.Top() - address
    {
      OnlyMultiple(next);
      var page := address / PAGE_SIZE;
      if !(address >= start && address < start + size) {
        assert page in e.Pages() && page !in free';
        B.Clear(bitmap, page, used - free');
        assert used - free' - {page} == used - (free' + {page});
        free' := free' + {page};
        freeMemory' := freeMemory' + PAGE_SIZE;
      }
      address := address + PAGE_SIZE;
      next := next + 1;
    }
  }

  /** The pages of an aligned region, by their addresses. */
  lemma OnlyPages(e: Entry)
    requires e.Aligned()
    ensures e.base == e.base / PAGE_SIZE * PAGE_SIZE && e.Top() == e.Top() / PAGE_SIZE * PAGE_SIZE
    ensures forall p: nat :: p in e.Pages() <==> e.base / PAGE_SIZE <= p < e.Top() / PAGE_SIZE
  {
  }

  /** Steps 2 and 3 on the chosen spot: the bitmap starts all ones and the usable pages are cleared. */
  method Populate(entries: seq<Entry>, highestPage: nat, totalMemory: nat, size: nat, spot: nat) returns (pmm: Allocator)
    requires ValidMap(entries) && BitmapSpot(entries, size, spot)
    requires highestPage == HighestAddress(entries) / PAGE_SIZE && size == highestPage / 8 + 1
    requires totalMemory == PAGE_SIZE * |UsablePages(entries)|
    ensures fresh(pmm) && fresh(pmm.bitmap) && pmm.Valid()
    ensures pmm.highestPage == highestPage && pmm.totalMemory == totalMemory && pmm.managed == pmm.free
    ensures pmm.bitmap.Length == size
    ensures forall p: nat :: p in pmm.free <==> p in UsablePages(entries) && !Holds(entries[spot].base, size, p)
  {
    var bitmap := new bv8[size];
    ghost var used := Range(0, 8 * size);
    B.Fill(bitmap, used);
    var freeMemory := 0;
    ghost var free: set<nat> := {};
    var start := entries[spot].base;
    assert used - free == used;
    for n := 0 to |entries|
      invariant B.Represents(bitmap[..], used - free)
      invariant forall p: nat :: p in free <==> p in UsablePages(entries[..n]) && !Holds(start, size, p)
      invariant freeMemory == PAGE_SIZE * |free|
    {
      assert entries[..n + 1][..n] == entries[..n];
      if entries[n].usable {
        FreshEntry(entries, n);
        freeMemory, free := ClearRegion(bitmap, entries[n], start, size, freeMemory, free, used);
      }
    }
    assert entries[..|entries|] == entries;
    SubsetSize(free, UsablePages(entries));
    forall p | p in free
      ensures p < highestPage
    {
      UsablePagesAre(entries, p);
    }
    pmm := new Allocator(bitmap, highestPage, totalMemory, freeMemory, free, used - free);
  }

  /**
    The bitmap lies at the start of the first usable region that is large enough; free are the pages
    of usable regions that do not begin in it.
   */
  ghost predicate SetUp(entries: seq<Entry>, size: nat, spot: nat, free: set<nat>) {
    && spot < |entries| && entries[spot].usable && entries[spot].length >= size
    && (forall i | 0 <= i < spot :: !entries[i].usable || entries[i].length < size)
    && forall p: nat :: p in free <==>
         && !(entries[spot].base <= 4096 * p < entries[spot].base + size)
         && exists i :: 0 <= i < |entries| && entries[i].usable && entries[i].base <= 4096 * p < entries[i].base + entries[i].length
  }

  lemma SetUpIs(entries: seq<Entry>, size: nat, spot: nat, free: set<nat>)
    requires ValidMap(entries) && BitmapSpot(entries, size, spot)
    requires forall p: nat :: p in free <==> p in UsablePages(entries) && !Holds(entries[spot].base, size, p)
    ensures SetUp(entries, size, spot, free)
  {
    forall p: nat
      ensures p in UsablePages(entries) <==>
              exists i :: 0 <= i < |entries| && entries[i].usable && entries[i].base <= 4096 * p < entries[i].base + entries[i].length
    {
      UsablePagesAre(entries, p);
      forall i | 0 <= i < |entries| && entries[i].usable
        ensures p in entries[i].Pages() <==> entries[i].base <= 4096 * p < entries[i].base + entries[i].length
      {
        OnlyPages(entries[i]);
      }
    }
  }

  /** `pmm_init`; null stands for the halt when no region can hold the bitmap. */
  method Init(entries: seq<Entry>) returns (pmm: Allocator?)
    requires ValidMap(entries)
    ensures var size := HighestAddress(entries) / 4096 / 8 + 1;
            pmm == null <==> forall i | 0 <= i < |entries| :: !entries[i].usable || entries[i].length < size
    ensures pmm != null ==>
            && fresh(pmm) && fresh(pmm.bitmap) && pmm.Valid()
            && pmm.highestPage == HighestAddress(entries) / 4096 && pmm.bitmap.Length == pmm.highestPage / 8 + 1
            && pmm.totalMemory == 4096 * |UsablePages(entries)|
            && pmm.managed == pmm.free && pmm.freeMemory == 4096 * |pmm.free|
    ensures pmm != null ==> exists spot: nat :: SetUp(entries, pmm.bitmap.Length, spot, pmm.free)
  {
    var highestAddress, totalMemory := Scan(entries);
    var highestPage := highestAddress / PAGE_SIZE;
    var size := highestPage / 8 + 1;
    var spot := FindSpot(entries, size);
    if spot == |entries| {
      return null;
    }
    assert Fits(entries[spot], size);
    pmm := Populate(entries, highestPage, totalMemory, size, spot);
    SetUpIs(entries, size, spot, pmm.free);
  }

  lemma OnlyMultiple(i: nat)
    ensures i * PAGE_SIZE % PAGE_SIZE == 0 && i * PAGE_SIZE / PAGE_SIZE == i
  {
  }

  lemma UnionSize<T>(a: set<T>, b: set<T>)
    requires a !! b
    ensures |a + b| == |a| + |b|
  {
  }

  lemma SubsetSize<T>(a: set<T>, b: set<T>)
    requires a <= b
    ensures |a| <= |b|
  {
    assert b == a + (b - a);
  }
}
