/**
 Bytes, the bit operations behind PLACE and ISTHERE, and bitmaps of byte sets.
 Bits are read off by halving; `BitsAreBitwise` ties that reading to the bit operations of the source.
 */
module Bytes {

  type byte = b: int | 0 <= b < 256

  const BITTAB: seq<byte> := [1, 2, 4, 8, 16, 32, 64, 128]

  /** Bit i of b, bit 0 being the lowest. */
  predicate Bit(b: nat, i: nat) {
    if i == 0 then b % 2 == 1 else Bit(b / 2, i - 1)
  }

  /** b with bit i turned on. */
  function SetBit(b: nat, i: nat): nat {
    if i == 0 then b - b % 2 + 1 else b % 2 + 2 * SetBit(b / 2, i - 1)
  }

  /** The table entry as the weight of bit i. */
  lemma BittabBits(b: byte, i: nat)
    requires i < 8
    ensures Bit(b, i) <==> b / BITTAB[i] % 2 == 1
    ensures SetBit(b, i) == if Bit(b, i) then b else b + BITTAB[i]
    ensures SetBit(b, i) < 256
  {
    HalvingBits(b, i);
    HalvedIsQuotient(b, i);
    SetBitBound(b, i, 8);
  }

  // ---------- Bitwise operations ----------

  function Mask(i: nat): bv8 { if i == 0 then 1 else Mask(i - 1) << 1 }

  lemma MaskIsEntry(i: nat)
    requires i < 8
    ensures BITTAB[i] == Mask(i) as int && (i < 7 ==> Mask(i) & 128 == 0)
  {
    if i == 0 {
    } else if i == 1 {
    } else if i == 2 {
    } else if i == 3 {
    } else if i == 4 {
    } else if i == 5 {
    } else if i == 6 {
    } else {
    }
  }

  lemma Halving(x: bv8)
    ensures x as int % 2 == (x & 1) as int
    ensures x as int / 2 == (x >> 1) as int
  {
  }

  lemma ShiftedMask(x: bv8, m: bv8)
    requires m & 128 == 0
    ensures x & (m << 1) == 0 <==> (x >> 1) & m == 0
    ensures (x | (m << 1)) >> 1 == (x >> 1) | m
    ensures (x | (m << 1)) & 1 == x & 1
  {
  }

  lemma LowMask(x: bv8)
    ensures (x | 1) >> 1 == x >> 1
    ensures (x | 1) & 1 == 1
    ensures x & 1 == 0 || x & 1 == 1
  {
  }

  lemma LowBit(x: bv8)
    ensures x & 1 != 0 <==> x as int % 2 == 1
  {
    Halving(x);
    LowMask(x);
  }

  lemma {:induction false} AndIsBit(x: bv8, i: nat)
    requires i < 8
    ensures x & Mask(i) != 0 <==> Bit(x as int, i)
    decreases i
  {
    if i == 0 {
      LowBit(x);
    } else {
      var m := Mask(i - 1);
      MaskIsEntry(i - 1);
      ShiftedMask(x, m);
      AndIsBit(x >> 1, i - 1);
      Halving(x);
    }
  }

  /** y has bit i set, and otherwise the bits of b. */
  lemma SetBitFrom(b: nat, i: nat, y: nat)
    requires y % 2 == if i == 0 then 1 else b % 2
    requires y / 2 == if i == 0 then b / 2 else SetBit(b / 2, i - 1)
    ensures y == SetBit(b, i)
  {
  }

  lemma {:induction false} OrSetsBit(x: bv8, i: nat, y: bv8)
    requires i < 8 && y == x | Mask(i)
    ensures y as int == SetBit(x as int, i)
    decreases i
  {
    Halving(x);
    Halving(y);
    if i == 0 {
      LowMask(x);
    } else {
      var m := Mask(i - 1);
      MaskIsEntry(i - 1);
      ShiftedMask(x, m);
      OrSetsBit(x >> 1, i - 1, y >> 1);
    }
    SetBitFrom(x as int, i, y as int);
  }

  lemma SameBits(x: bv8, y: bv8)
    requires x as int == y as int
    ensures x == y
  {
  }

  /** Testing and setting bit i of a byte x are `x & m` and `x | m` with the table entry m for i. */
  lemma BitsAreBitwise(x: bv8, i: nat, m: bv8)
    requires i < 8 && m as int == BITTAB[i]
    ensures Bit(x as int, i) <==> x & m != 0
    ensures SetBit(x as int, i) == (x | m) as int
  {
    hide Bit, SetBit, Mask;
    MaskIsEntry(i);
    SameBits(m, Mask(i));
    AndIsBit(x, i);
    OrSetsBit(x, i, x | Mask(i));
  }

  lemma BelowDouble(b: nat, m: nat)
    requires b < 2 * m
    ensures b / 2 < m && b - b % 2 + 1 < 2 * m
    ensures forall s: nat | s < m :: b % 2 + 2 * s < 2 * m
  {
  }

  lemma {:induction false} SetBitBound(b: nat, i: nat, n: nat)
    requires i < n && b < Power(n)
    ensures SetBit(b, i) < Power(n)
  {
    var m := Power(n - 1);
    BelowDouble(b, m);
    if i == 0 {
      assert SetBit(b, i) == b - b % 2 + 1;
    } else {
      SetBitBound(b / 2, i - 1, n - 1);
      hide Power;
      assert SetBit(b, i) == b % 2 + 2 * SetBit(b / 2, i - 1);
    }
  }

  lemma {:induction false} HalvedIsQuotient(b: byte, i: nat)
    requires i < 8
    ensures Power(i) == BITTAB[i]
    ensures Halved(b, i) == b / BITTAB[i]
  {
    if i == 0 {
    } else {
      HalvedIsQuotient(b, i - 1);
      HalvedOnce(b, i - 1);
      BittabDoubles(b, i);
    }
  }

  lemma BittabDoubles(b: byte, i: nat)
    requires 0 < i < 8
    ensures BITTAB[i] == 2 * BITTAB[i - 1]
    ensures b / BITTAB[i] == b / BITTAB[i - 1] / 2
  {
    if i == 1 {
    } else if i == 2 {
    } else if i == 3 {
    } else if i == 4 {
    } else if i == 5 {
    } else if i == 6 {
    } else {
    }
  }

  lemma {:induction false} HalvedOnce(b: nat, i: nat)
    ensures Halved(b, i + 1) == Halved(b, i) / 2
  {
    if i == 0 {
    } else {
      HalvedOnce(b / 2, i - 1);
    }
  }

  function Power(i: nat): nat {
    if i == 0 then 1 else 2 * Power(i - 1)
  }

  function Halved(b: nat, i: nat): nat {
    if i == 0 then b else Halved(b / 2, i - 1)
  }

  lemma {:induction false} HalvingBits(b: nat, i: nat)
    ensures Bit(b, i) <==> Halved(b, i) % 2 == 1
    ensures SetBit(b, i) == if Bit(b, i) then b else b + Power(i)
  {
    if i == 0 {
    } else {
      HalvingBits(b / 2, i - 1);
    }
  }

  /** The number whose bit i says whether lo + i is in s, for lo + i < hi. */
  function Digits(s: set<byte>, lo: nat, hi: nat): nat
    requires lo <= hi <= 256
    decreases hi - lo
  {
    if lo == hi then 0 else (if lo in s then 1 else 0) + 2 * Digits(s, lo + 1, hi)
  }

  lemma {:induction false} DigitsBound(s: set<byte>, lo: nat, hi: nat)
    requires lo <= hi <= 256
    ensures Digits(s, lo, hi) < Power(hi - lo)
    decreases hi - lo
  {
    if lo < hi {
      DigitsBound(s, lo + 1, hi);
    }
  }

  lemma {:induction false} DigitsBit(s: set<byte>, lo: nat, hi: nat, i: nat)
    requires lo + i < hi <= 256
    ensures Bit(Digits(s, lo, hi), i) <==> lo + i in s
    decreases i
  {
    if i == 0 {
    } else {
      DigitsBit(s, lo + 1, hi, i - 1);
    }
  }

  lemma {:induction false} DigitsPlace(s: set<byte>, lo: nat, hi: nat, c: byte)
    requires lo <= hi <= 256
    ensures lo <= c < hi ==> Digits(s + {c}, lo, hi) == SetBit(Digits(s, lo, hi), c - lo)
    ensures !(lo <= c < hi) ==> Digits(s + {c}, lo, hi) == Digits(s, lo, hi)
    decreases hi - lo
  {
    if lo < hi {
      DigitsPlace(s, lo + 1, hi, c);
    }
  }

  /** The bytes not in s. */
  ghost function Others(s: set<byte>): set<byte> {
    set x: byte | x !in s
  }

  lemma {:induction false} DigitsComplement(s: set<byte>, lo: nat, hi: nat)
    requires lo <= hi <= 256
    ensures Digits(Others(s), lo, hi) == Power(hi - lo) - 1 - Digits(s, lo, hi)
    ensures lo > 0 ==> Digits(Others(s) - {0}, lo, hi) == Digits(Others(s), lo, hi)
    decreases hi - lo
  {
    if lo < hi {
      DigitsComplement(s, lo + 1, hi);
    }
  }

  /** Without its bit for NUL, the first byte of a map is even. */
  lemma DigitsEven(s: set<byte>, hi: nat)
    requires 0 < hi <= 256
    ensures Digits(Others(s) - {0}, 0, hi) == Digits(Others(s), 0, hi) - Digits(Others(s), 0, hi) % 2
  {
    DigitsComplement(s, 1, hi);
  }

  lemma {:induction false} NoDigits(s: set<byte>, lo: nat, hi: nat)
    requires lo <= hi <= 256 && forall x | x in s :: !(lo <= x < hi)
    ensures Digits(s, lo, hi) == 0
    decreases hi - lo
  {
    if lo < hi {
      NoDigits(s, lo + 1, hi);
    }
  }

  lemma PowerOfByte()
    ensures Power(8) == 256
  {
    HalvedIsQuotient(0, 7);
  }

  /** The byte of a bitmap of `s` that covers 8*k .. 8*k + 7. */
  function MapByte(s: set<byte>, k: nat): (r: byte)
    requires k < 32
  {
    DigitsBound(s, 8 * k, 8 * k + 8);
    PowerOfByte();
    Digits(s, 8 * k, 8 * k + 8)
  }

  /** The first n bytes of the bitmap of `s`. */
  function Bitmap(s: set<byte>, n: nat): (r: seq<byte>)
    requires n <= 32
    ensures |r| == n
  {
    if n == 0 then [] else Bitmap(s, n - 1) + [MapByte(s, n - 1)]
  }

  lemma {:induction false} BitmapAt(s: set<byte>, n: nat, k: nat)
    requires k < n <= 32
    ensures Bitmap(s, n)[k] == MapByte(s, k)
  {
    if k < n - 1 {
      BitmapAt(s, n - 1, k);
    }
  }

  /** A run of bytes is the bitmap of s if each of them is. */
  lemma BitmapFromBytes(s: set<byte>, n: nat, bits: seq<byte>)
    requires n == |bits| <= 32 && forall k | 0 <= k < n :: bits[k] == MapByte(s, k)
    ensures bits == Bitmap(s, n)
  {
    forall k | 0 <= k < n
      ensures bits[k] == Bitmap(s, n)[k]
    {
      BitmapAt(s, n, k);
    }
  }

  /** ISTHERE: is byte c in the bitmap that starts at bits[at]? */
  predicate IsThere(bits: seq<byte>, at: nat, c: byte)
    requires at + c / 8 < |bits|
  {
    Bit(bits[at + c / 8], c % 8)
  }

  lemma BitmapIsThere(bits: seq<byte>, at: nat, s: set<byte>, n: nat, c: byte)
    requires n <= 32 && at + n <= |bits| && bits[at..at + n] == Bitmap(s, n)
    requires c / 8 < n
    ensures IsThere(bits, at, c) <==> c in s
  {
    assert bits[at + c / 8] == bits[at..at + n][c / 8];
    BitmapAt(s, n, c / 8);
    DigitsBit(s, 8 * (c / 8), 8 * (c / 8) + 8, c % 8);
  }

  /** PLACE(c) on the bitmap of `s` gives the bitmap of `s + {c}`. */
  lemma BitmapPlace(s: set<byte>, n: nat, c: byte)
    requires n <= 32 && c / 8 < n
    ensures SetBit(Bitmap(s, n)[c / 8], c % 8) < 256
    ensures Bitmap(s + {c}, n) == Bitmap(s, n)[c / 8 := SetBit(Bitmap(s, n)[c / 8], c % 8)]
  {
    BittabBits(Bitmap(s, n)[c / 8], c % 8);
    forall k | 0 <= k < n
      ensures Bitmap(s, n)[k] == MapByte(s, k)
      ensures Bitmap(s + {c}, n)[k] == if k == c / 8 then SetBit(MapByte(s, k), c % 8) else MapByte(s, k)
    {
      BitmapAt(s, n, k);
      BitmapAt(s + {c}, n, k);
      DigitsPlace(s, 8 * k, 8 * k + 8, c);
    }
  }

  /** The map of the bytes not in s, NUL excepted, from the map of s. */
  lemma BitmapComplement(s: set<byte>, k: nat)
    requires k < 32
    ensures MapByte(Others(s), k) == 255 - MapByte(s, k)
    ensures MapByte(Others(s) - {0}, k) == MapByte(Others(s), k) - if k == 0 then MapByte(Others(s), k) % 2 else 0
  {
    PowerOfByte();
    DigitsComplement(s, 8 * k, 8 * k + 8);
    DigitsEven(s, 8);
  }
}
