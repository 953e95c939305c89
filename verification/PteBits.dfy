/** The masks and shifts of threads/pte.h. */
module PteBits {
  /*
   The entries of page directories and page tables, and the two indices in an address, as pte.h
   computes them on 32-bit words. Every function of PageDir on numbers is the one here on words, and
   every number of 32 bits is the value of a word (Words.ValueToBits).
   */

  import opened Words
  import PageDir

  // PTE_FLAGS is 0xfff, PTE_ADDR 0xffff_f000, PTE_P 1, PTE_W 2, PTE_U 4 and PTMASK 0x3f_f000.

  function PdNo(va: Bits): Bits {
    va >> 22
  }

  function PtNo(va: Bits): Bits {
    (va & 0x3f_f000) >> 12
  }

  function PdeCreate(pt: Bits): Bits {
    pt | 4 | 1 | 2
  }

  /** pte_create_kernel(). */
  function PteCreateKernel(page: Bits, writable: bool): Bits {
    if writable then page | 1 | 2 else page | 1
  }

  /** pte_create_user(). */
  function PteCreate(page: Bits, writable: bool): Bits {
    PteCreateKernel(page, writable) | 4
  }

  /** The address in an entry. */
  function Addr(e: Bits): Bits {
    e & 0xffff_f000
  }

  /** pagedir_clear_page() clears PTE_P. */
  function Absent(e: Bits): Bits {
    e & !1
  }

  // ---------------------------------------------------------------- facts about bits

  lemma SmallValues()
    ensures Value(0) == 0 && Value(1) == 1 && Value(5) == 5 && Value(7) == 7
  {
    ValueBit();
    Split2(5);
    Split2(7);
    ValueHalf(3);
    SmallBits();
  }

  lemma SmallBits()
    ensures (3 as Bits) >> 1 == 1 && (3 as Bits) & 1 == 1
    ensures (5 as Bits) >> 2 == 1 && (5 as Bits) & 3 == 1
    ensures (7 as Bits) >> 2 == 1 && (7 as Bits) & 3 == 3
  {
  }

  lemma FlagsApart(a: Bits, flags: Bits)
    requires a & 0xfff == 0 && flags & 0xfff == flags
    ensures (a | flags) >> 12 == a >> 12 && (a | flags) & 0xfff == flags
  {
  }

  /** Setting flags in an aligned address adds them. */
  lemma FlagsAdd(a: Bits, flags: Bits)
    requires a & 0xfff == 0 && flags & 0xfff == flags
    ensures Value(a | flags) == Value(a) + Value(flags)
  {
    FlagsApart(a, flags);
    Split12(a);
    Split12(a | flags);
    ValueBit();
  }

  lemma AlignedBits(a: Bits)
    ensures Value(a) < 0x1_0000_0000 && (PageDir.Aligned(Value(a)) <==> a & 0xfff == 0)
  {
    hide Value;
    ValueBound(a);
    Split12(a);
    ValueBit();
    if Value(a & 0xfff) == 0 {
      ValueZero(a & 0xfff);
    }
  }

  lemma AddressApart(e: Bits)
    ensures (e & 0xffff_f000) >> 12 == e >> 12 && (e & 0xffff_f000) & 0xfff == 0
  {
  }

  lemma AbsentApart(e: Bits)
    ensures (e & !1) >> 1 == e >> 1 && (e & !1) & 1 == 0 && ((e >> 1) & 1 == 0 <==> e & 2 == 0)
  {
  }

  lemma IndexApart(va: Bits)
    ensures (va >> 12) >> 10 == va >> 22 && (va & 0x3f_f000) >> 12 == (va >> 12) & 0x3ff
  {
  }

  lemma FlagBits(a: Bits)
    requires a & 0xfff == 0
    ensures (a | 7) & 0xffff_f000 == a && (a | 7) & 1 != 0 && (a | 7) & 2 != 0 && (a | 7) & 4 != 0
    ensures (a | 5) & 0xffff_f000 == a && (a | 5) & 1 != 0 && (a | 5) & 2 == 0 && (a | 5) & 4 != 0
  {
  }

  // ---------------------------------------------------------------- the functions on numbers

  /** The number of the entry made is what PageDir makes of the number of the address. */
  lemma CreateBits(a: Bits, writable: bool)
    requires a & 0xfff == 0
    ensures Value(a) < 0x1_0000_0000 && PageDir.Aligned(Value(a))
    ensures Value(PdeCreate(a)) == PageDir.PdeCreate(Value(a))
    ensures Value(PteCreate(a, writable)) == PageDir.PteCreate(Value(a), writable)
  {
    hide Value, PteCreate, PdeCreate;
    AlignedBits(a);
    PdeIs(a);
    PteIs(a, writable);
  }

  lemma PdeIs(a: Bits)
    requires a & 0xfff == 0
    ensures Value(PdeCreate(a)) == Value(a) + 7
  {
    hide Value, PdeCreate;
    PdeSeven(a);
    SmallValues();
    FlagsAdd(a, 7);
  }

  lemma PteIs(a: Bits, writable: bool)
    requires a & 0xfff == 0
    ensures Value(PteCreate(a, writable)) == Value(a) + if writable then 7 else 5
  {
    hide Value, PteCreate;
    SmallValues();
    if writable {
      PteSeven(a);
      FlagsAdd(a, 7);
    } else {
      PteFive(a);
      FlagsAdd(a, 5);
    }
  }

  /** What PageDir reads from the number of an entry is what the masks read from the entry. */
  lemma ReadBits(e: Bits)
    ensures Value(e) < 0x1_0000_0000
    ensures PageDir.Present(Value(e)) <==> e & 1 != 0
    ensures PageDir.Writable(Value(e)) <==> e & 2 != 0
    ensures Value(Addr(e)) == PageDir.Addr(Value(e))
    ensures Value(Absent(e)) == PageDir.Absent(Value(e))
  {
    hide Value;
    ValueBound(e);
    ReadFlags(e);
    ReadAddress(e);
    ReadAbsent(e);
  }

  lemma ReadFlags(e: Bits)
    ensures (Value(e) % 2 != 0 <==> e & 1 != 0) && (Value(e) / 2 % 2 != 0 <==> e & 2 != 0)
  {
    hide Value;
    AbsentApart(e);
    LowBit(e);
    LowBit(e >> 1);
  }

  lemma LowBit(e: Bits)
    ensures (Value(e) % 2 != 0 <==> e & 1 != 0) && Value(e) / 2 == Value(e >> 1)
  {
    hide Value;
    ValueHalf(e);
    var h, bit := Value(e >> 1), e & 1 != 0;
    assert Value(e) == 2 * h + if bit then 1 else 0;
  }

  lemma ReadAddress(e: Bits)
    ensures Value(Addr(e)) == Value(e) - Value(e) % 4096
  {
    hide Value;
    AddressApart(e);
    Split12(e);
    Split12(e & 0xffff_f000);
    ValueBit();
  }

  lemma ReadAbsent(e: Bits)
    ensures Value(Absent(e)) == Value(e) - Value(e) % 2
  {
    hide Value;
    AbsentApart(e);
    ValueHalf(e);
    ValueHalf(e & !1);
  }

  /** The shift and the mask cut the number of a page out of an address, and the two indices out of it. */
  lemma IndexBits(va: Bits)
    ensures Value(PdNo(va)) == PageDir.PdNo(Value(va)) && Value(PtNo(va)) == PageDir.PtNo(Value(va))
    ensures Value(va & 0xfff) == Value(va) % 4096
  {
    IndexApart(va);
    Split12(va);
    Split10(va >> 12);
    PageDir.IndicesArePage(Value(va));
  }

  /** On words: the entries give back what went in, and are for user code. */
  lemma EntryRoundTrip(a: Bits, writable: bool)
    requires a & 0xfff == 0
    ensures var e := PteCreate(a, writable);
      e & 1 != 0 && e & 4 != 0 && Addr(e) == a && (e & 2 != 0 <==> writable)
    ensures var e := PdeCreate(a); e & 1 != 0 && e & 4 != 0 && e & 2 != 0 && Addr(e) == a
  {
    hide PteCreate, PdeCreate;
    FlagBits(a);
    PdeSeven(a);
    if writable {
      PteSeven(a);
    } else {
      PteFive(a);
    }
  }

  lemma PdeSeven(a: Bits)
    ensures PdeCreate(a) == a | 7
  {
  }

  lemma PteSeven(a: Bits)
    ensures PteCreate(a, true) == a | 7
  {
  }

  lemma PteFive(a: Bits)
    ensures PteCreate(a, false) == a | 5
  {
  }
}
