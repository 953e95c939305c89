/** Machine words and the numbers they stand for. */
module Words {
  type Bits = bv32

  /** The number that a word denotes in binary. */
  function Value(x: Bits): nat
    decreases x
  {
    if x == 0 then 0 else 2 * Value(x >> 1) + (if x & 1 == 0 then 0 else 1)
  }

  /** The word for a number, reduced to 32 bits. */
  function ToBits(n: nat): Bits {
    if n == 0 then 0 else Shifted(ToBits(n / 2), n % 2 != 0)
  }

  /** One more bit at the end. */
  function Shifted(x: Bits, bit: bool): Bits {
    (x << 1) | (if bit then 1 else 0)
  }

  lemma ValueHalf(x: Bits)
    ensures Value(x) == 2 * Value(x >> 1) + (if x & 1 == 0 then 0 else 1)
  {
    assert x == 0 ==> x >> 1 == 0 && x & 1 == 0;
  }

  lemma ValueBit()
    ensures Value(0) == 0 && Value(1) == 1
  {
    assert (1 as Bits) >> 1 == 0 && (1 as Bits) & 1 == 1;
  }

  lemma Split2(x: Bits)
    ensures Value(x) == 4 * Value(x >> 2) + Value(x & 3) && Value(x & 3) < 4
  {
    ValueHalf(x);
    ValueHalf(x >> 1);
    ValueHalf(x & 3);
    ValueBit();
    assert (x >> 1) >> 1 == x >> 2 && (x & 3) >> 1 == (x >> 1) & 1 && (x & 3) & 1 == x & 1;
    assert (x >> 1) & 1 == 0 || (x >> 1) & 1 == 1;
  }

  lemma Split4(x: Bits)
    ensures Value(x) == 16 * Value(x >> 4) + Value(x & 15) && Value(x & 15) < 16
  {
    Split2(x);
    Split2(x >> 2);
    Split2(x & 15);
    assert (x >> 2) >> 2 == x >> 4 && (x & 15) >> 2 == (x >> 2) & 3 && (x & 15) & 3 == x & 3;
  }

  lemma Split8(x: Bits)
    ensures Value(x) == 256 * Value(x >> 8) + Value(x & 255) && Value(x & 255) < 256
  {
    Split4(x);
    Split4(x >> 4);
    Split4(x & 255);
    assert (x >> 4) >> 4 == x >> 8 && (x & 255) >> 4 == (x >> 4) & 15 && (x & 255) & 15 == x & 15;
  }

  /** A page table index and what is above it. */
  lemma Split10(x: Bits)
    ensures Value(x) == 1024 * Value(x >> 10) + Value(x & 0x3ff) && Value(x & 0x3ff) < 1024
  {
    Split8(x);
    Split2(x >> 8);
    Split8(x & 0x3ff);
    assert (x >> 8) >> 2 == x >> 10 && (x & 0x3ff) >> 8 == (x >> 8) & 3 && (x & 0x3ff) & 255 == x & 255;
  }

  /** A page number and the offset in the page. */
  lemma Split12(x: Bits)
    ensures Value(x) == 4096 * Value(x >> 12) + Value(x & 0xfff) && Value(x & 0xfff) < 4096
  {
    Split8(x);
    Split4(x >> 8);
    Split8(x & 0xfff);
    assert (x >> 8) >> 4 == x >> 12 && (x & 0xfff) >> 8 == (x >> 8) & 15 && (x & 0xfff) & 255 == x & 255;
  }

  lemma ValueBound(x: Bits)
    ensures Value(x) < 0x1_0000_0000
  {
    Split12(x);
    Split10(x >> 12);
    Split10(x >> 22);
    ValueBit();
    assert (x >> 12) >> 10 == x >> 22 && (x >> 22) >> 10 == 0;
  }

  lemma {:induction false} ValueZero(x: Bits)
    requires Value(x) == 0
    ensures x == 0
    decreases x
  {
    if x != 0 {
      ValueHalf(x);
      ValueZero(x >> 1);
      OnlyZero(x);
    }
  }

  lemma OnlyZero(x: Bits)
    requires x >> 1 == 0 && x & 1 == 0
    ensures x == 0
  {
  }

  lemma TopBitClear(x: Bits)
    requires Value(x) < 0x8000_0000
    ensures x >> 31 == 0
  {
    Split12(x);
    Split10(x >> 12);
    Split8(x >> 22);
    ValueHalf(x >> 30);
    assert (x >> 12) >> 10 == x >> 22 && (x >> 22) >> 8 == x >> 30 && (x >> 30) >> 1 == x >> 31;
    ValueZero(x >> 31);
  }

  lemma ShiftedBack(x: Bits, bit: bool)
    requires x >> 31 == 0
    ensures Shifted(x, bit) >> 1 == x && (Shifted(x, bit) & 1 == 0 <==> !bit)
  {
  }

  lemma ShiftedValue(x: Bits, bit: bool)
    requires Value(x) < 0x8000_0000
    ensures Value(Shifted(x, bit)) == 2 * Value(x) + (if bit then 1 else 0)
  {
    TopBitClear(x);
    ShiftedBack(x, bit);
    ValueHalf(Shifted(x, bit));
    hide Shifted, Value;
  }

  /** Every number of 32 bits is the value of its word. */
  lemma {:induction false} ValueToBits(n: nat)
    requires n < 0x1_0000_0000
    ensures Value(ToBits(n)) == n
  {
    hide Value, Shifted;
    if n > 0 {
      ValueToBits(n / 2);
      ShiftedValue(ToBits(n / 2), n % 2 != 0);
    } else {
      ValueBit();
    }
  }
}
