/**
  Facts about sequences that several modules need.
 */
module Sequences {
  function Reverse<T>(s: seq<T>): (r: seq<T>)
    ensures |r| == |s|
  {
    if s == [] then [] else Reverse(s[1..]) + [s[0]]
  }

  lemma {:induction false} ReverseAt<T>(s: seq<T>, i: nat)
    requires i < |s|
    ensures Reverse(s)[i] == s[|s| - 1 - i]
  {
    if i < |s| - 1 {
      ReverseAt(s[1..], i);
    }
  }

  lemma {:induction false} ReverseAppend<T>(s: seq<T>, x: T)
    ensures Reverse(s + [x]) == [x] + Reverse(s)
  {
    if s != [] {
      ReverseAppend(s[1..], x);
      assert (s + [x])[1..] == s[1..] + [x];
    }
  }

  lemma ReverseNothing<T>()
    ensures Reverse<T>([]) == []
  {
  }

  lemma SliceOfSlice<T>(s: seq<T>, start: nat, size: nat, offset: nat, count: nat)
    requires start + size <= |s| && offset + count <= size
    ensures s[start..start + size][offset..offset + count] == s[start + offset..start + offset + count]
  {
    var t := s[start..start + size];
    var u, v := t[offset..offset + count], s[start + offset..start + offset + count];
    forall k | 0 <= k < count
      ensures u[k] == v[k]
    {
      assert t[offset + k] == s[start + (offset + k)];
    }
  }
}
