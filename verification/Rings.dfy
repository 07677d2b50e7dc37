/**
  Positions in a ring of slots: counting on from a start, and around at the end.
 */
module Rings {
  import opened Bits

  /** The slot k places behind the start. */
  function Slot(size: nat, start: nat, k: nat): (r: nat)
    requires start < size && k <= size
    ensures r < size
  {
    if start + k < size then start + k else start + k - size
  }

  /** In the source the slot is a remainder. */
  lemma SlotIsRemainder(size: nat, start: nat, k: nat)
    requires start < size && k <= size
    ensures Slot(size, start, k) == (start + k) % size
  {
    ModUnique(start + k, size, if start + k < size then 0 else 1, Slot(size, start, k));
  }

  lemma SlotsApart(size: nat, start: nat, j: nat, k: nat)
    requires start < size && j < k < size
    ensures Slot(size, start, j) != Slot(size, start, k)
  {
  }

  lemma SlotMoves(size: nat, start: nat, k: nat)
    requires start < size && k < size
    ensures Slot(size, Slot(size, start, 1), k) == Slot(size, start, k + 1)
    ensures Slot(size, start, size) == Slot(size, start, 0)
  {
  }
}
