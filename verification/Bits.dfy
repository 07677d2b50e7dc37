/**
  Bitwise operators on machine words.

  Words are natural numbers below 2^64.  `And` and `Or` are the C operators `&` and `|`,
  defined bit by bit; `Shl` is `<<` without truncation and `Shr` is `>>`.  The lemmas turn
  the masks the kernel uses into division and remainder by constants, which is what the
  other modules reason with.
 */
module Bits {
  const WORD_LIMIT: nat := 0x1_0000_0000_0000_0000

  type Word = x: int | 0 <= x < WORD_LIMIT

  function And(x: nat, y: nat): nat
    decreases x
  {
    if x == 0 then 0
    else (if x % 2 == 1 && y % 2 == 1 then 1 else 0) + 2 * And(x / 2, y / 2)
  }

  function Or(x: nat, y: nat): nat
    decreases x + y
  {
    if x == 0 && y == 0 then 0
    else (if x % 2 == 1 || y % 2 == 1 then 1 else 0) + 2 * Or(x / 2, y / 2)
  }

  function Shl(x: nat, k: nat): (r: nat)
    ensures x > 0 ==> r > 0
    decreases k
  {
    if k == 0 then x else 2 * Shl(x, k - 1)
  }

  function Shr(x: nat, k: nat): nat
    decreases k
  {
    if k == 0 then x else Shr(x / 2, k - 1)
  }

  /** The low n bits of x. */
  function Low(x: nat, n: nat): nat
    decreases n
  {
    if n == 0 then 0 else x % 2 + 2 * Low(x / 2, n - 1)
  }

  // ---------- fields ----------

  lemma {:induction false} AndOnes(x: nat, n: nat)
    ensures And(x, Shl(1, n) - 1) == Low(x, n)
    decreases n
  {
    if n == 0 {
      AndZero(x);
    } else {
      AndOnes(x / 2, n - 1);
      LowZero(n);
    }
  }

  lemma {:induction false} AndZero(x: nat)
    ensures And(x, 0) == 0
  {
    if x > 0 {
      AndZero(x / 2);
    }
  }

  lemma {:induction false} LowZero(n: nat)
    ensures Low(0, n) == 0
  {
    if n > 0 {
      LowZero(n - 1);
    }
  }

  lemma {:induction false} ShlZero(k: nat)
    ensures Shl(0, k) == 0
  {
    if k > 0 {
      ShlZero(k - 1);
    }
  }

  lemma {:induction false} AndShl(x: nat, m: nat, k: nat)
    ensures And(x, Shl(m, k)) == Shl(And(Shr(x, k), m), k)
    decreases k
  {
    if k > 0 {
      AndShl(x / 2, m, k - 1);
      var y := Shl(m, k);
      assert y % 2 == 0 && y / 2 == Shl(m, k - 1);
      assert And(x, y) == 2 * And(x / 2, y / 2);
    }
  }

  lemma {:induction false} AndApart(x: nat, y: nat, n: nat)
    requires x < Shl(1, n) && Low(y, n) == 0
    ensures And(y, x) == 0
    decreases n
  {
    if n > 0 {
      AndApart(x / 2, y / 2, n - 1);
    } else {
      AndZero(y);
    }
  }

  lemma {:induction false} AndCommutes(x: nat, y: nat)
    ensures And(x, y) == And(y, x)
    decreases x
  {
    if x == 0 {
      AndZero(y);
    } else {
      AndCommutes(x / 2, y / 2);
    }
  }

  // ---------- shifts as products and quotients ----------

  lemma {:induction false} ShlMul(x: nat, k: nat)
    ensures Shl(x, k) == x * Shl(1, k)
  {
    if k > 0 {
      ShlMul(x, k - 1);
    }
  }

  lemma {:induction false} ShrDiv(x: nat, k: nat)
    ensures Shr(x, k) == x / Shl(1, k)
    decreases k
  {
    if k > 0 {
      ShrDiv(x / 2, k - 1);
      DivHalf(x, Shl(1, k - 1));
    }
  }

  lemma {:induction false} LowMod(x: nat, n: nat)
    ensures Low(x, n) == x % Shl(1, n)
    decreases n
  {
    if n > 0 {
      LowMod(x / 2, n - 1);
      DivHalf(x, Shl(1, n - 1));
    }
  }

  lemma DivHalf(x: nat, m: nat)
    requires m > 0
    ensures x / (2 * m) == x / 2 / m && x % (2 * m) == x % 2 + 2 * (x / 2 % m)
  {
    var q, r := x / 2 / m, x / 2 % m;
    assert x / 2 == q * m + r;
    assert x == q * (2 * m) + (x % 2 + 2 * r);
    ModUnique(x, 2 * m, q, x % 2 + 2 * r);
  }

  lemma ModUnique(x: nat, m: nat, q: nat, r: nat)
    requires m > 0 && r < m && x == q * m + r
    ensures x / m == q && x % m == r
  {
    var d := x / m - q;
    assert d * m == r - x % m;
    assert d == 0;
  }

  lemma {:induction false} PowAdd(a: nat, b: nat)
    ensures Shl(1, a + b) == Shl(1, a) * Shl(1, b)
  {
    if b > 0 {
      PowAdd(a, b - 1);
    }
  }

  /** `x & (((1 << n) - 1) << k)` selects the n-bit field of x at bit k. */
  lemma AndField(x: nat, k: nat, n: nat, p: nat, q: nat, mask: nat)
    requires p == Shl(1, k) && q == Shl(1, n) && mask == (q - 1) * p
    ensures And(x, mask) == x / p % q * p
  {
    var y := Shr(x, k);
    AndShl(x, q - 1, k);
    ShlMul(q - 1, k);
    AndOnes(y, n);
    LowMod(y, n);
    ShrDiv(x, k);
    ShlMul(y % q, k);
  }

  // ---------- the masks of the kernel ----------

  lemma Powers()
    ensures Shl(1, 7) == 0x80 && Shl(1, 9) == 0x200 && Shl(1, 12) == 0x1000
    ensures Shl(1, 21) == 0x20_0000 && Shl(1, 31) == 0x8000_0000 && Shl(1, 40) == 0x100_0000_0000
  {
    PowAdd(9, 12);
    PowAdd(10, 21);
    PowAdd(9, 31);
  }

  lemma HighPowers()
    ensures Shl(1, 55) == 0x80_0000_0000_0000
    ensures Shl(1, 60) == 0x1000_0000_0000_0000 && Shl(1, 63) == 0x8000_0000_0000_0000
  {
    Powers();
    PowAdd(40, 15);
    PowAdd(40, 20);
    PowAdd(40, 23);
  }

  /** The masks of the page-table walk: address field, 2 MiB address field, index and offset. */
  lemma AddressMasks(x: nat)
    ensures And(x, 0x000F_FFFF_FFFF_F000) == x / 0x1000 % 0x100_0000_0000 * 0x1000
    ensures And(x, 0x000F_FFFF_FFE0_0000) == x / 0x20_0000 % 0x8000_0000 * 0x20_0000
  {
    Powers();
    AndField(x, 12, 40, 0x1000, 0x100_0000_0000, 0x000F_FFFF_FFFF_F000);
    AndField(x, 21, 31, 0x20_0000, 0x8000_0000, 0x000F_FFFF_FFE0_0000);
  }

  lemma LowMasks(x: nat)
    ensures And(x, 0x1FF) == x % 0x200 && And(x, 0xFFF) == x % 0x1000 && And(x, 0x1F_FFFF) == x % 0x20_0000
  {
    Powers();
    AndField(x, 0, 9, 1, 0x200, 0x1FF);
    AndField(x, 0, 12, 1, 0x1000, 0xFFF);
    AndField(x, 0, 21, 1, 0x20_0000, 0x1F_FFFF);
  }

  lemma SmallMod(y: nat, m: nat)
    requires y < m
    ensures y % m == y
  {
  }

  lemma RoundedDown(x: nat, m: nat)
    requires m > 0
    ensures x / m * m % m == 0 && x - m < x / m * m <= x
  {
    var q, r := x / m, x % m;
    assert x == q * m + r;
    ModUnique(q * m, m, q, 0);
  }

  /** Division by 8 of sums and differences of multiples of 8. */
  lemma MultiplesOf8(a: nat, b: nat)
    requires a % 8 == 0 && b % 8 == 0
    ensures (a + b) % 8 == 0 && (a + b) / 8 == a / 8 + b / 8
    ensures a >= b ==> (a - b) % 8 == 0 && (a - b) / 8 == a / 8 - b / 8
  {
    var x, y := a / 8, b / 8;
    assert a == 8 * x && b == 8 * y;
  }

  /** `x & ~15` on 64-bit words */
  lemma Align16(x: Word)
    ensures And(x, 0xFFFF_FFFF_FFFF_FFF0) == x / 16 * 16
    ensures x / 16 * 16 % 16 == 0 && x - 16 < x / 16 * 16 <= x
  {
    HighPowers();
    AndField(x, 4, 60, 16, 0x1000_0000_0000_0000, 0xFFFF_FFFF_FFFF_FFF0);
    SmallMod(x / 16, 0x1000_0000_0000_0000);
    RoundedDown(x, 16);
  }

  /** `x & ~511` on 64-bit words */
  lemma Align512(x: Word)
    ensures And(x, 0xFFFF_FFFF_FFFF_FE00) == x / 512 * 512
    ensures x / 512 * 512 % 512 == 0 && x - 512 < x / 512 * 512 <= x
  {
    HighPowers();
    AndField(x, 9, 55, 512, 0x80_0000_0000_0000, 0xFFFF_FFFF_FFFF_FE00);
    SmallMod(x / 512, 0x80_0000_0000_0000);
    RoundedDown(x, 512);
  }

  /** `x & 0xF` */
  lemma Nibble(x: nat)
    ensures And(x, 0xF) == x % 0x10
  {
    AndField(x, 0, 4, 1, 0x10, 0xF);
  }

  /** The page-table flag bits `1 << 0`, ..., `1 << 63`. */
  lemma FlagMasks(e: nat)
    ensures And(e, 0x1) == e % 2
    ensures And(e, 0x2) == e / 2 % 2 * 2
    ensures And(e, 0x4) == e / 4 % 2 * 4
    ensures And(e, 0x80) == e / 0x80 % 2 * 0x80
    ensures And(e, 0x8000_0000_0000_0000) == e / 0x8000_0000_0000_0000 % 2 * 0x8000_0000_0000_0000
  {
    Powers();
    HighPowers();
    AndField(e, 0, 1, 1, 2, 0x1);
    AndField(e, 1, 1, 2, 2, 0x2);
    AndField(e, 2, 1, 4, 2, 0x4);
    AndField(e, 7, 1, 0x80, 2, 0x80);
    AndField(e, 63, 1, 0x8000_0000_0000_0000, 2, 0x8000_0000_0000_0000);
  }

  lemma {:induction false} OrZero(x: nat)
    ensures Or(x, 0) == x
  {
    if x > 0 {
      OrZero(x / 2);
    }
  }

  lemma {:induction false} ZeroOr(x: nat)
    ensures Or(0, x) == x
  {
    if x > 0 {
      ZeroOr(x / 2);
    }
  }

  lemma {:induction false} OrIsZero(x: nat, y: nat)
    ensures Or(x, y) == 0 <==> x == 0 && y == 0
    decreases x + y
  {
    if x > 0 || y > 0 {
      OrIsZero(x / 2, y / 2);
    }
  }

  /** `(x | y) & m == (x & m) | (y & m)` */
  lemma {:induction false} AndOr(x: nat, y: nat, m: nat)
    ensures And(Or(x, y), m) == Or(And(x, m), And(y, m))
    decreases x + y
  {
    if x > 0 || y > 0 {
      AndOr(x / 2, y / 2, m / 2);
      AndStep(x, m);
      AndStep(y, m);
      AndStep(Or(x, y), m);
      OrStep(And(x, m), And(y, m));
    }
  }

  lemma AndStep(x: nat, m: nat)
    ensures And(x, m) == (if x % 2 == 1 && m % 2 == 1 then 1 else 0) + 2 * And(x / 2, m / 2)
    ensures And(x, m) / 2 == And(x / 2, m / 2)
    ensures And(x, m) % 2 == 1 <==> x % 2 == 1 && m % 2 == 1
  {
  }

  lemma OrStep(x: nat, y: nat)
    ensures Or(x, y) == (if x % 2 == 1 || y % 2 == 1 then 1 else 0) + 2 * Or(x / 2, y / 2)
  {
  }

  lemma {:induction false} OrBound(x: nat, y: nat, n: nat)
    requires x < Shl(1, n) && y < Shl(1, n)
    ensures Or(x, y) < Shl(1, n)
    decreases n
  {
    if n > 0 {
      OrBound(x / 2, y / 2, n - 1);
      OrStep(x, y);
    }
  }

  lemma OrWord(x: Word, y: Word)
    ensures Or(x, y) < WORD_LIMIT
  {
    HighPowers();
    PowAdd(63, 1);
    OrBound(x, y, 64);
  }

  /** A multiple of the page size has none of the low 12 bits. */
  lemma AlignedLow(frame: nat, m: nat)
    requires m < 0x1000
    ensures And(frame * 0x1000, m) == 0
  {
    Powers();
    ShlMul(frame, 12);
    ShrDiv(m, 12);
    AndShl(m, frame, 12);
    ShlZero(12);
    AndCommutes(m, frame * 0x1000);
  }

  /** A word below 2^63 has bit 63 clear. */
  lemma SmallHigh(x: nat)
    requires x < 0x8000_0000_0000_0000
    ensures And(x, 0x8000_0000_0000_0000) == 0
  {
    HighPowers();
    LowMod(0x8000_0000_0000_0000, 63);
    AndApart(x, 0x8000_0000_0000_0000, 63);
    AndCommutes(x, 0x8000_0000_0000_0000);
  }
}
