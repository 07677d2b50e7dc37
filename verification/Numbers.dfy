/**
  The number-to-text routines of lib/string.c, working in the caller's buffer.
 */
module Numbers {
  import opened Bits
  import opened CStrings
  import opened Sequences

  const MINUS: Byte := 45

  /** `char buffer[65]` in lib/printk.c */
  const BUFFER_SIZE: nat := 65

  const INT64_MIN: int := -0x8000_0000_0000_0000

  type Int64 = x: int | -0x8000_0000_0000_0000 <= x < 0x8000_0000_0000_0000

  predicate GoodBase(base: int) {
    2 <= base <= 36
  }

  // ---------- numerals ----------

  /** The digit d: '0' to '9', then letters. */
  function Digit(d: nat, upper: bool): Byte
    requires d < 36
  {
    if d < 10 then 48 + d else if upper then 55 + d else 87 + d
  }

  /** The digits of the source: those of `hex_digits`, and on to z. */
  lemma DigitsAre(d: nat)
    requires d < 36
    ensures Digit(d, false) == "0123456789abcdefghijklmnopqrstuvwxyz"[d] as int
    ensures Digit(d, true) == "0123456789ABCDEFGHIJKLMNOPQRSTUVWXYZ"[d] as int
  {
  }

  function DigitValue(c: Byte): nat {
    if c < 58 then (if c < 48 then 0 else c - 48) else if c < 97 then (if c < 65 then 0 else c - 55) else c - 87
  }

  /** The numeral of v. */
  function Numeral(v: nat, base: nat, upper: bool): (s: seq<Byte>)
    requires GoodBase(base)
    ensures |s| > 0
  {
    if v < base then [Digit(v, upper)]
    else
      Smaller(v, base);
      Numeral(v / base, base, upper) + [Digit(v % base, upper)]
  }

  lemma Smaller(v: nat, base: nat)
    requires GoodBase(base) && v > 0
    ensures 0 <= v / base < v && v % base < base && v == v / base * base + v % base
    ensures v >= base ==> v / base > 0
  {
  }

  /** The number a numeral stands for. */
  function Value(s: seq<Byte>, base: nat): nat {
    if s == [] then 0 else Value(s[..|s| - 1], base) * base + DigitValue(s[|s| - 1])
  }

  lemma {:induction false} NumeralReadsBack(v: nat, base: nat, upper: bool)
    requires GoodBase(base)
    ensures Value(Numeral(v, base, upper), base) == v
  {
    if v >= base {
      Smaller(v, base);
      NumeralReadsBack(v / base, base, upper);
      var s := Numeral(v, base, upper);
      assert s[..|s| - 1] == Numeral(v / base, base, upper);
    } else {
      assert Numeral(v, base, upper)[..0] == [];
    }
  }

  predicate IsDigit(c: Byte, base: nat, upper: bool)
    requires GoodBase(base)
  {
    DigitValue(c) < base && c == Digit(DigitValue(c), upper)
  }

  /** Digits only, and no leading zero except for 0 itself. */
  ghost predicate Canonical(s: seq<Byte>, base: nat, upper: bool)
    requires GoodBase(base)
  {
    && |s| > 0 && (forall i | 0 <= i < |s| :: IsDigit(s[i], base, upper))
    && (s[0] == Digit(0, upper) ==> |s| == 1)
  }

  lemma {:induction false} NumeralIsCanonical(v: nat, base: nat, upper: bool)
    requires GoodBase(base)
    ensures Canonical(Numeral(v, base, upper), base, upper)
    ensures v > 0 ==> Numeral(v, base, upper)[0] != Digit(0, upper)
  {
    if v >= base {
      Smaller(v, base);
      NumeralIsCanonical(v / base, base, upper);
    }
  }

  /** There is no other canonical numeral for a value. */
  lemma {:induction false} NumeralIsUnique(s: seq<Byte>, base: nat, upper: bool)
    requires GoodBase(base) && Canonical(s, base, upper)
    ensures Numeral(Value(s, base), base, upper) == s
    ensures s[0] != Digit(0, upper) ==> Value(s, base) > 0
    decreases |s|
  {
    var n := |s| - 1;
    var d := DigitValue(s[n]);
    assert IsDigit(s[n], base, upper);
    if n == 0 {
      assert s[..0] == [] && Value(s, base) == d;
    } else {
      NumeralIsUnique(s[..n], base, upper);
      var v := Value(s[..n], base);
      AtLeastOnce(v, base);
      ModUnique(v * base + d, base, v, d);
    }
  }

  lemma AtLeastHalved(q: nat, base: nat)
    requires base >= 2
    ensures 2 * q <= q * base
  {
  }

  lemma DigitsOnly(v: nat, base: nat)
    requires GoodBase(base)
    ensures Numeral(v, base, false)[0] >= 48
  {
    NumeralIsCanonical(v, base, false);
    assert IsDigit(Numeral(v, base, false)[0], base, false);
  }

  /** A value below 2^k has at most k digits in any base. */
  lemma {:induction false} NumeralLength(v: nat, base: nat, upper: bool, k: nat)
    requires GoodBase(base) && v < Shl(1, k) && k > 0
    ensures |Numeral(v, base, upper)| <= k
    decreases k
  {
    if v >= base {
      Smaller(v, base);
      assert Shl(1, k) == 2 * Shl(1, k - 1);
      AtLeastHalved(v / base, base);
      NumeralLength(v / base, base, upper, k - 1);
    }
  }

  /** The bound is tight: the largest value in base 2 fills the buffer of `printk` to the last byte. */
  lemma {:induction false} BinaryLength(k: nat, upper: bool)
    requires k > 0
    ensures Shl(1, k) > 1 && |Numeral(Shl(1, k) - 1, 2, upper)| == k
    decreases k
  {
    if k > 1 {
      BinaryLength(k - 1, upper);
      assert (Shl(1, k) - 1) / 2 == Shl(1, k - 1) - 1;
    } else {
      assert Shl(1, 1) == 2 * Shl(1, 0);
    }
  }

  // ---------- what the loops compute ----------

  /** Division as in C: truncated toward zero. */
  function CDiv(a: int, b: int): int
    requires b > 0
  {
    if a >= 0 then a / b else -(-a / b)
  }

  function CMod(a: int, b: int): int
    requires b > 0
  {
    if a >= 0 then a % b else -(-a % b)
  }

  /** The character for a remainder; for a negative one it is not a digit. */
  function Char(r: int): (c: Byte)
    requires -36 < r < 36
  {
    if r < 10 then r + 48 else r - 10 + 97
  }

  /** The characters of all remainders, most significant first. */
  function Digits(t: int, base: nat): (s: seq<Byte>)
    requires GoodBase(base)
    ensures |s| > 0
    decreases if t < 0 then -t else t
  {
    CDivSmaller(t, base);
    if 0 - base < t < base then [Char(t)] else Digits(CDiv(t, base), base) + [Char(CMod(t, base))]
  }

  lemma CDivSmaller(t: int, base: nat)
    requires GoodBase(base)
    ensures 0 - base < CMod(t, base) < base
    ensures t > 0 ==> 0 <= CDiv(t, base) < t
    ensures t < 0 ==> t < CDiv(t, base) <= 0
    ensures CDiv(t, base) == 0 <==> 0 - base < t < base
    ensures 0 - base < t < base ==> CMod(t, base) == t
  {
    var v := if t < 0 then -t else t;
    Quotient(v, base);
  }

  lemma Quotient(v: nat, base: nat)
    requires GoodBase(base)
    ensures 0 <= v % base < base && 0 <= v / base && (v > 0 ==> v / base < v)
    ensures v < base ==> v / base == 0 && v % base == v
    ensures v >= base ==> v / base > 0
  {
    var q, r := v / base, v % base;
    assert v == q * base + r;
    AtLeastHalved(q, base);
    if v < base && q > 0 {
      AtLeastOnce(q, base);
    }
  }

  lemma AtLeastOnce(q: nat, base: nat)
    requires q > 0
    ensures q * base >= base
  {
  }

  lemma {:induction false} DigitsAreNumeral(v: nat, base: nat)
    requires GoodBase(base)
    ensures Digits(v, base) == Numeral(v, base, false)
  {
    if v >= base {
      Smaller(v, base);
      DigitsAreNumeral(v / base, base);
    }
  }

  lemma {:induction false} NegativeDigits(v: nat, base: nat)
    requires GoodBase(base) && v > 0
    ensures |Digits(0 - v, base)| == |Numeral(v, base, false)|
    ensures Digits(0 - v, base)[0] < 48
  {
    if v >= base {
      Smaller(v, base);
      NegativeDigits(v / base, base);
    }
  }

  // ---------- the routines ----------

  /** The text in the buffer, and nothing written behind its NUL. */
  twostate predicate Printed(str: array<Byte>, text: seq<Byte>)
    reads str
  {
    && |text| < str.Length
    && str[..|text|] == text && str[|text|] == NUL
    && forall i | |text| < i < str.Length :: str[i] == old(str[i])
  }

  /** The digit loop: remainders from the lowest on, at the start of the buffer. */
  method FillDigits(value: int, str: array<Byte>, base: nat) returns (p: nat)
    requires GoodBase(base) && |Digits(value, base)| <= str.Length
    modifies str
    ensures p == |Digits(value, base)| && Reverse(str[..p]) == Digits(value, base)
    ensures forall i | p <= i < str.Length :: str[i] == old(str[i])
  {
    hide CDiv;
    hide CMod;
    hide Char;
    p := 0;
    var tmp := value;
    var more := true;
    while more
      invariant p <= |Digits(value, base)| && (more <==> tmp != 0 || p == 0)
      invariant Digits(value, base) == (if more then Digits(tmp, base) else []) + Reverse(str[..p])
      invariant forall i | p <= i < str.Length :: str[i] == old(str[i])
      decreases if more then 1 else 0, if tmp < 0 then -tmp else tmp
    {
      CDivSmaller(tmp, base);
      str[p] := Char(CMod(tmp, base));
      ReverseAppend(str[..p], str[p]);
      assert str[..p + 1] == str[..p] + [str[p]];
      p := p + 1;
      tmp := CDiv(tmp, base);
      more := tmp != 0;
    }
  }

  /** The loop that turns the first n bytes around. */
  method ReverseInPlace(str: array<Byte>, n: nat)
    requires 0 < n <= str.Length
    modifies str
    ensures str[..n] == Reverse(old(str[..n]))
    ensures forall i | n <= i < str.Length :: str[i] == old(str[i])
  {
    var start, ptr := 0, n - 1;
    while start < ptr
      invariant 0 <= start && start + ptr == n - 1 && start <= ptr + 2
      invariant forall i | 0 <= i < start || ptr < i < n :: str[i] == old(str[n - 1 - i])
      invariant forall i | start <= i <= ptr || n <= i < str.Length :: str[i] == old(str[i])
    {
      str[start], str[ptr] := str[ptr], str[start];
      start := start + 1;
      ptr := ptr - 1;
    }
    ghost var was := old(str[..n]);
    forall i | 0 <= i < n
      ensures str[i] == Reverse(was)[i]
    {
      ReverseAt(was, i);
    }
  }

  /** The NUL behind the characters, and these turned around. */
  method Finish(str: array<Byte>, p: nat)
    requires 0 < p < str.Length
    modifies str
    ensures str[..p] == Reverse(old(str[..p])) && str[p] == NUL
    ensures forall i | p < i < str.Length :: str[i] == old(str[i])
  {
    ghost var s := str[..p];
    str[p] := NUL;
    assert str[..p] == s;
    ReverseInPlace(str, p);
  }

  /** `utoa`: the numeral, or nothing for a bad base. */
  method Utoa(value: Word, str: array<Byte>, base: int)
    requires str.Length >= 1 && (GoodBase(base) ==> |Numeral(value, base, false)| < str.Length)
    modifies str
    ensures Printed(str, if GoodBase(base) then Numeral(value, base, false) else [])
  {
    if base < 2 || base > 36 {
      str[0] := NUL;
      return;
    }
    DigitsAreNumeral(value, base);
    var p := FillDigits(value, str, base);
    Finish(str, p);
  }

  /** `-value` on 64 bits: the smallest value stays what it is. */
  function Negate(value: Int64): Int64 {
    if value == INT64_MIN then INT64_MIN else -value
  }

  /** What `itoa` prints. */
  function ItoaText(value: Int64, base: nat): seq<Byte>
    requires GoodBase(base)
  {
    if value < 0 && base == 10 then [MINUS] + Digits(Negate(value), base) else Digits(value, base)
  }

  /** What a signed number should look like. */
  function SignedNumeral(value: int, base: nat): seq<Byte>
    requires GoodBase(base)
  {
    if value < 0 then ['-' as int] + Numeral(-value, base, false) else Numeral(value, base, false)
  }

  /** `itoa` is right exactly for values that are not negative, and in base 10 for all but the smallest. */
  lemma ItoaIsRight(value: Int64, base: nat)
    requires GoodBase(base)
    ensures ItoaText(value, base) == SignedNumeral(value, base) <==> value >= 0 || (base == 10 && value != INT64_MIN)
  {
    hide Numeral;
    hide Digits;
    var v: int := value;
    if v >= 0 {
      DigitsAreNumeral(v, base);
    } else if base == 10 && v != INT64_MIN {
      DigitsAreNumeral(-v, base);
    } else {
      NegativeDigits(-v, base);
      DigitsOnly(-v, base);
      SecondDiffers(Digits(v, base), Numeral(-v, base, false));
    }
  }

  /** The minimum in base 10, and -1 in base 16. */
  lemma ItoaIsWrong()
    ensures ItoaText(-0x8000_0000_0000_0000, 10) != SignedNumeral(-0x8000_0000_0000_0000, 10)
    ensures ItoaText(-1, 16) != SignedNumeral(-1, 16)
  {
    ItoaIsRight(-0x8000_0000_0000_0000, 10);
    ItoaIsRight(-1, 16);
  }

  /** Neither with a sign in front nor without is s the numeral t with a sign. */
  lemma SecondDiffers(s: seq<Byte>, t: seq<Byte>)
    requires |s| == |t| > 0 && s[0] != t[0]
    ensures s != [MINUS] + t && [MINUS] + s != [MINUS] + t
  {
    assert ([MINUS] + s)[1] == s[0] && ([MINUS] + t)[1] == t[0];
  }

  /** `itoa` */
  method Itoa(value: Int64, str: array<Byte>, base: int)
    requires str.Length >= 1 && (GoodBase(base) ==> |ItoaText(value, base)| < str.Length)
    modifies str
    ensures Printed(str, if GoodBase(base) then ItoaText(value, base) else [])
  {
    hide Digits;
    hide Reverse;
    if base < 2 || base > 36 {
      str[0] := NUL;
      return;
    }
    var v, negative := value, false;
    if v < 0 && base == 10 {
      negative := true;
      v := Negate(v);
    }
    var p := FillDigits(v, str, base);
    if negative {
      ghost var s := str[..p];
      ReverseAppend(s, MINUS);
      str[p] := MINUS;
      assert str[..p + 1] == s + [MINUS];
      p := p + 1;
    }
    Finish(str, p);
  }

  /** The buffer of `printk` is large enough for every number in every base, and no smaller one is. */
  lemma BufferIsEnough(value: Word, signed: Int64, base: nat, upper: bool)
    requires GoodBase(base)
    ensures |Numeral(value, base, upper)| < 65 && |ItoaText(signed, base)| < 65
    ensures |Numeral(WORD_LIMIT - 1, 2, upper)| == 64
  {
    WordPower();
    NumeralLength(value, base, upper, 64);
    BinaryLength(64, upper);
    var v: int := signed;
    var m := if v < 0 then -v else v;
    NumeralLength(m, base, false, 64);
    DigitsAreNumeral(m, base);
    if signed < 0 {
      NegativeDigits(m, base);
      if base == 10 {
        DecimalLength(m);
      }
    }
  }

  lemma DecimalLength(m: nat)
    requires m <= 0x8000_0000_0000_0000
    ensures |Numeral(m, 10, false)| <= 62
  {
    HighPowers();
    if m >= 10 {
      assert m / 10 < 0x1000_0000_0000_0000;
      NumeralLength(m / 10, 10, false, 60);
    }
  }

  lemma WordPower()
    ensures Shl(1, 64) == WORD_LIMIT
  {
    HighPowers();
    assert Shl(1, 64) == 2 * Shl(1, 63);
  }

  // ---------- hexadecimal from the top ----------

  const HEX: nat := 16

  /** Value with its low 4i bits dropped. */
  function Top(value: Word, i: nat): nat {
    Shr(value, 4 * i)
  }

  lemma TopStep(value: Word, i: nat)
    requires i > 0
    ensures Top(value, i) == Top(value, i - 1) / HEX
    ensures And(Top(value, i - 1), 0xF) == Top(value, i - 1) % HEX
  {
    var k := 4 * (i - 1);
    ShrStep(value, k);
    ShrStep(value, k + 1);
    ShrStep(value, k + 2);
    ShrStep(value, k + 3);
    Nibble(Top(value, i - 1));
  }

  lemma {:induction false} ShrStep(x: nat, k: nat)
    ensures Shr(x, k + 1) == Shr(x, k) / 2
  {
    if k > 0 {
      ShrStep(x / 2, k - 1);
    }
  }

  lemma TopEnds(value: Word)
    ensures Top(value, 16) == 0 && Top(value, 0) == value
  {
    WordPower();
    ShrDiv(value, 64);
  }

  /** `(value >> (i * 4)) & 0xF` */
  method HexDigit(value: Word, i: nat) returns (digit: nat)
    ensures digit == Top(value, i) % HEX < HEX && Top(value, i + 1) == Top(value, i) / HEX
  {
    hide And;
    hide Shr;
    TopStep(value, i + 1);
    digit := And(Shr(value, i * 4), 0xF);
  }

  lemma NumeralZero(upper: bool)
    ensures Numeral(0, HEX, upper) == [Digit(0, upper)]
  {
  }

  /** One more digit from the top. */
  lemma NextNumeral(top: nat, next: nat, digit: nat, upper: bool)
    requires top == next / HEX && digit == next % HEX
    ensures digit < HEX && (next == 0 <==> top == 0 && digit == 0)
    ensures next != 0 ==> Numeral(next, HEX, upper) == (if top == 0 then [] else Numeral(top, HEX, upper)) + [Digit(digit, upper)]
  {
  }

  /** `itoa_hex` scans from the top and prints the same as `utoa` in base 16, in either case. */
  method ItoaHex(value: Word, str: array<Byte>, uppercase: bool)
    requires |Numeral(value, HEX, uppercase)| < str.Length
    modifies str
    ensures Printed(str, Numeral(value, HEX, uppercase))
  {
    hide Top;
    hide Numeral;
    NumeralZero(uppercase);
    if value == 0 {
      str[0] := Digit(0, uppercase);
      str[1] := NUL;
      return;
    }
    TopEnds(value);
    var p, started, i := 0, false, 16;
    while i > 0
      invariant 0 <= i <= 16 && p < str.Length && (started <==> Top(value, i) != 0)
      invariant str[..p] == if started then Numeral(Top(value, i), HEX, uppercase) else []
      invariant forall j | p <= j < str.Length :: str[j] == old(str[j])
    {
      i := i - 1;
      TopFits(value, i, uppercase);
      var digit := HexDigit(value, i);
      NextNumeral(Top(value, i + 1), Top(value, i), digit, uppercase);
      if digit != 0 || started {
        str[p] := Digit(digit, uppercase);
        assert str[..p + 1] == str[..p] + [str[p]];
        p := p + 1;
        started := true;
      }
    }
    ghost var s := str[..p];
    str[p] := NUL;
    assert str[..p] == s;
  }

  /** What has been printed so far is not longer than the whole numeral. */
  lemma {:induction false} TopFits(value: Word, i: nat, upper: bool)
    ensures |Numeral(Top(value, i), HEX, upper)| <= |Numeral(value, HEX, upper)|
  {
    if i > 0 {
      TopStep(value, i);
      TopFits(value, i - 1, upper);
    }
  }
}
