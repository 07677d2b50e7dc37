/**
  NUL-terminated strings and the routines of lib/string.c that work on them.
 */
module CStrings {
  type Byte = x: int | 0 <= x < 256

  const NUL: Byte := 0

  function Zeros(n: nat): (s: seq<Byte>)
    ensures |s| == n && forall i | 0 <= i < n :: s[i] == NUL
  {
    seq(n, i => NUL)
  }

  /** The string at the start of s: up to the first NUL, or all of s. */
  function CString(s: seq<Byte>): (c: seq<Byte>)
    ensures |c| <= |s| && c == s[..|c|] && NUL !in c
    ensures |c| < |s| ==> s[|c|] == NUL
  {
    if s == [] || s[0] == NUL then [] else [s[0]] + CString(s[1..])
  }

  lemma {:induction false} CStringIs(s: seq<Byte>, c: seq<Byte>)
    requires |c| <= |s| && c == s[..|c|] && NUL !in c
    requires |c| < |s| ==> s[|c|] == NUL
    ensures CString(s) == c
  {
    if c != [] {
      assert s[0] == c[0] && c[0] in c;
      assert c[1..] == s[1..][..|c| - 1];
      CStringIs(s[1..], c[1..]);
    }
  }

  predicate Terminated(s: seq<Byte>) {
    |CString(s)| < |s|
  }

  /** `strcmp`: 0 exactly for equal strings. */
  method Strcmp(a: seq<Byte>, b: seq<Byte>) returns (r: int)
    requires Terminated(a) && Terminated(b)
    ensures r == 0 <==> CString(a) == CString(b)
  {
    ghost var s, t := CString(a), CString(b);
    var i := 0;
    while a[i] != NUL && a[i] == b[i]
      invariant i <= |s| && i <= |t| && s[..i] == t[..i]
      decreases |s| - i
    {
      assert i < |s| && i < |t|;
      i := i + 1;
    }
    var x: int := a[i];
    r := x - b[i];
    Compared(a, b, i);
  }

  /** Strings that agree up to the end of one, or up to a difference, are equal if there is no difference. */
  lemma Compared(a: seq<Byte>, b: seq<Byte>, i: nat)
    requires Terminated(a) && Terminated(b) && i <= |CString(a)| && i <= |CString(b)|
    requires CString(a)[..i] == CString(b)[..i] && (a[i] == NUL || a[i] != b[i])
    ensures a[i] == b[i] <==> CString(a) == CString(b)
  {
    var s, t := CString(a), CString(b);
    assert i < |s| ==> s[i] == a[i] && s[i] in s;
    assert i < |t| ==> t[i] == b[i] && t[i] in t;
    if a[i] == b[i] {
      assert s[..i] == s && t[..i] == t;
    }
  }

  /** `count` times NUL from a position on. */
  method PadNul(dest: array<Byte>, from: nat, count: nat)
    requires from + count <= dest.Length
    modifies dest
    ensures forall i | 0 <= i < dest.Length :: dest[i] == if from <= i < from + count then NUL else old(dest[i])
  {
    var d, m := from, count;
    while m > 0
      invariant d + m == from + count && from <= d && m >= 0
      invariant forall i | 0 <= i < dest.Length :: dest[i] == if from <= i < d then NUL else old(dest[i])
    {
      dest[d] := NUL;
      d := d + 1;
      m := m - 1;
    }
  }

  /** The n bytes from a position on, or what there is of them. */
  function Piece(s: seq<Byte>, from: nat, n: nat): seq<Byte>
    requires from <= |s|
  {
    if from + n <= |s| then s[from..from + n] else s[from..]
  }

  /** Reading up to n bytes, or to a NUL, stays within s. */
  predicate Readable(s: seq<Byte>, from: nat, n: nat) {
    from <= |s| && (from + n <= |s| || Terminated(s[from..]))
  }

  /**
    `strncpy(dest, src + from, n)`: the string is copied up to n bytes and padded with NUL.
    After a shorter string it clears one byte more than n, which callers have to spare.
   */
  method Strncpy(dest: array<Byte>, src: array<Byte>, from: nat, n: nat)
    requires Readable(src[..], from, n) && n < dest.Length && dest != src
    modifies dest
    ensures CString(dest[..n]) == CString(Piece(src[..], from, n))
    ensures dest[n] == if |CString(Piece(src[..], from, n))| < n then NUL else old(dest[n])
    ensures forall i | n < i < dest.Length :: dest[i] == old(dest[i])
  {
    hide CString;
    ghost var s := Piece(src[..], from, n);
    var k := CopyToNul(dest, src, from, n);
    var d := if k < n then k + 1 else n;
    ghost var copied := dest[..d];
    PadNul(dest, d, n - k);
    assert dest[..d] == copied;
    PaddedCopy(s, dest[..n], k);
  }

  /** The first loop of `strncpy`: up to n bytes, or to a NUL, which is copied too but not counted. */
  method CopyToNul(dest: array<Byte>, src: array<Byte>, from: nat, n: nat) returns (k: nat)
    requires Readable(src[..], from, n) && n < dest.Length && dest != src
    modifies dest
    ensures var s := Piece(src[..], from, n);
            && k <= n && k <= |s| && dest[..k] == s[..k] && NUL !in s[..k]
            && (k < |s| ==> s[k] == NUL) && (k < n ==> k < |s| && dest[k] == NUL)
            && k == |CString(s)|
    ensures forall i | (if k < n then k + 1 else n) <= i < dest.Length :: dest[i] == old(dest[i])
  {
    ghost var s := Piece(src[..], from, n);
    k := 0;
    while k < n
      invariant 0 <= k <= n && k <= |s| && dest[..k] == s[..k] && NUL !in s[..k]
      invariant forall i | k <= i < dest.Length :: dest[i] == old(dest[i])
    {
      assert k < |s| && s[k] == src[from + k];
      dest[k] := src[from + k];
      if dest[k] == NUL {
        break;
      }
      k := k + 1;
    }
    CStringIs(s, s[..k]);
  }

  /** Two sequences with the same first k bytes, which are not NUL, and then a NUL or the end. */
  lemma PaddedCopy(s: seq<Byte>, t: seq<Byte>, k: nat)
    requires k <= |s| && k <= |t| && s[..k] == t[..k] && NUL !in s[..k]
    requires k < |s| ==> s[k] == NUL
    requires k < |t| ==> t[k] == NUL
    ensures CString(s) == CString(t) == s[..k]
  {
    CStringIs(s, s[..k]);
    CStringIs(t, s[..k]);
  }
}
