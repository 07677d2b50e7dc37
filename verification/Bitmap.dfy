/**
  The bitmap of lib/bitmap.c: a byte array read as a set of bit numbers.
 */
module Bitmap {

  predicate TestBit(b: bv8, k: nat)
    requires k < 8
  {
    b & ((1 as bv8) << k) > 0
  }

  predicate Test(bitmap: seq<bv8>, index: nat)
    requires index < 8 * |bitmap|
  {
    TestBit(bitmap[index / 8], index % 8)
  }

  /** The byte array stands for exactly this set of bit numbers. */
  ghost predicate Represents(bitmap: seq<bv8>, members: set<nat>) {
    && (forall i: nat | i in members :: i < 8 * |bitmap|)
    && (forall i: nat {:trigger Test(bitmap, i)} | i < 8 * |bitmap| :: Test(bitmap, i) <==> i in members)
  }

  /** Bit k of a byte is worth 2^k. */
  lemma BitValues(k: nat)
    requires k < 8
    ensures TestBit(1, k) <==> k == 0
    ensures TestBit(2, k) <==> k == 1
    ensures TestBit(4, k) <==> k == 2
    ensures TestBit(8, k) <==> k == 3
    ensures TestBit(16, k) <==> k == 4
    ensures TestBit(32, k) <==> k == 5
    ensures TestBit(64, k) <==> k == 6
    ensures TestBit(128, k) <==> k == 7
  {
  }

  lemma SetBit(b: bv8, k: nat, j: nat)
    requires k < 8 && j < 8
    ensures TestBit(b | ((1 as bv8) << k), j) == (j == k || TestBit(b, j))
  {
  }

  lemma ClearBit(b: bv8, k: nat, j: nat)
    requires k < 8 && j < 8
    ensures TestBit(b & !((1 as bv8) << k), j) == (j != k && TestBit(b, j))
  {
  }

  lemma AllBits(k: nat)
    requires k < 8
    ensures TestBit(0xFF, k)
  {
  }

  /** The byte array is determined by the set: two bitmaps with the same members are equal. */
  lemma MembersDetermineBytes(a: seq<bv8>, b: seq<bv8>, members: set<nat>)
    requires |a| == |b| && Represents(a, members) && Represents(b, members)
    ensures a == b
  {
    forall i | 0 <= i < |a|
      ensures a[i] == b[i]
    {
      forall k | 0 <= k < 8
        ensures TestBit(a[i], k) == TestBit(b[i], k)
      {
        assert (8 * i + k) / 8 == i && (8 * i + k) % 8 == k;
        assert Test(a, 8 * i + k) == Test(b, 8 * i + k);
      }
      BitsDetermineByte(a[i], b[i]);
    }
  }

  lemma BitsDetermineByte(x: bv8, y: bv8)
    requires forall k | 0 <= k < 8 :: TestBit(x, k) == TestBit(y, k)
    ensures x == y
  {
    assert TestBit(x, 0) == TestBit(y, 0) && TestBit(x, 1) == TestBit(y, 1);
    assert TestBit(x, 2) == TestBit(y, 2) && TestBit(x, 3) == TestBit(y, 3);
    assert TestBit(x, 4) == TestBit(y, 4) && TestBit(x, 5) == TestBit(y, 5);
    assert TestBit(x, 6) == TestBit(y, 6) && TestBit(x, 7) == TestBit(y, 7);
  }

  /** One byte is rewritten; afterwards bit k of that byte tests as `value` and the others as before. */
  lemma RepresentsAfterWrite(was: seq<bv8>, index: nat, byte: bv8, members: set<nat>, now: set<nat>)
    requires index < 8 * |was| && Represents(was, members)
    requires forall j: nat | j < 8 && j != index % 8 :: TestBit(byte, j) == TestBit(was[index / 8], j)
    requires now == if TestBit(byte, index % 8) then members + {index} else members - {index}
    ensures Represents(was[index / 8 := byte], now)
  {
    forall i: nat | i < 8 * |was|
      ensures Test(was[index / 8 := byte], i) <==> i in now
    {
      assert Test(was, i) <==> i in members;
      var j := i % 8;
      assert i / 8 == index / 8 && j == index % 8 ==> i == index;
    }
  }

  /** `bitmap_set` */
  method Set(bitmap: array<bv8>, index: nat, ghost members: set<nat>)
    requires index < 8 * bitmap.Length && Represents(bitmap[..], members)
    modifies bitmap
    ensures Represents(bitmap[..], members + {index})
  {
    ghost var was := bitmap[..];
    var byte := bitmap[index / 8] | ((1 as bv8) << (index % 8));
    bitmap[index / 8] := byte;
    assert bitmap[..] == was[index / 8 := byte];
    forall j: nat | j < 8
      ensures TestBit(byte, j) == (j == index % 8 || TestBit(was[index / 8], j))
    {
      SetBit(was[index / 8], index % 8, j);
    }
    RepresentsAfterWrite(was, index, byte, members, members + {index});
  }

  /** `bitmap_clear` */
  method Clear(bitmap: array<bv8>, index: nat, ghost members: set<nat>)
    requires index < 8 * bitmap.Length && Represents(bitmap[..], members)
    modifies bitmap
    ensures Represents(bitmap[..], members - {index})
  {
    ghost var was := bitmap[..];
    var byte := bitmap[index / 8] & !((1 as bv8) << (index % 8));
    bitmap[index / 8] := byte;
    assert bitmap[..] == was[index / 8 := byte];
    forall j: nat | j < 8
      ensures TestBit(byte, j) == (j != index % 8 && TestBit(was[index / 8], j))
    {
      ClearBit(was[index / 8], index % 8, j);
    }
    RepresentsAfterWrite(was, index, byte, members, members - {index});
  }

  /** `bitmap_test` */
  method IsSet(bitmap: array<bv8>, index: nat, ghost members: set<nat>) returns (r: bool)
    requires index < 8 * bitmap.Length && Represents(bitmap[..], members)
    ensures r <==> index in members
  {
    assert Test(bitmap[..], index) <==> index in members;
    r := bitmap[index / 8] & ((1 as bv8) << (index % 8)) > 0;
  }

  /** `memset(bitmap, 0xFF, size)` */
  method Fill(bitmap: array<bv8>, ghost members: set<nat>)
    requires forall i: nat :: i in members <==> i < 8 * bitmap.Length
    modifies bitmap
    ensures Represents(bitmap[..], members)
  {
    for n := 0 to bitmap.Length
      invariant forall i | 0 <= i < n :: bitmap[i] == 0xFF
    {
      bitmap[n] := 0xFF;
    }
    forall i: nat | i < 8 * bitmap.Length
      ensures Test(bitmap[..], i)
    {
      AllBits(i % 8);
    }
  }
}
