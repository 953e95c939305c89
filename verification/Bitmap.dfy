/** Bitmaps, lib/kernel/bitmap.c. */
module Bitmap {
  /*
   bitmap.c: an array of words used as an array of bits. The functions below say what each operation
   does to the sequence of bits; the class works on the words, and its contracts say that it does just
   that.
   */

  import opened Common

  type Word = bv32

  predicate AllAre(m: seq<bool>, i: nat, n: nat, v: bool) {
    i + n <= |m| && forall x :: i <= x < i + n ==> m[x] == v
  }

  /** bitmap_scan(), from i on: the first group of n bits that are all v. */
  function Scan(m: seq<bool>, i: nat, n: nat, v: bool): (r: Option<nat>)
    ensures r.Some? ==> i <= r.value && AllAre(m, r.value, n, v)
    ensures r.Some? ==> forall j :: i <= j < r.value ==> !AllAre(m, j, n, v)
    ensures r == None ==> forall j :: i <= j ==> !AllAre(m, j, n, v)
    decreases |m| - i
  {
    if i + n > |m| then None
    else if AllAre(m, i, n, v) then Some(i)
    else Scan(m, i + 1, n, v)
  }

  /** bitmap_set_multiple(). */
  function Marked(m: seq<bool>, i: nat, n: nat, v: bool): (r: seq<bool>)
    requires i + n <= |m|
    ensures |r| == |m|
    ensures forall x :: 0 <= x < |m| ==> r[x] == (if i <= x < i + n then v else m[x])
  {
    m[..i] + seq(n, _ => v) + m[i + n..]
  }

  /** bitmap_count(). */
  function Count(m: seq<bool>, v: bool): nat {
    if m == [] then 0 else (if m[|m| - 1] == v then 1 else 0) + Count(m[..|m| - 1], v)
  }

  lemma ScanIsFree(m: seq<bool>, n: nat, start: nat)
    requires Scan(m, 0, n, false) == Some(start)
    ensures start + n <= |m| && forall x: nat :: start <= x < start + n ==> !m[x]
  {
  }

  /** bitmap_scan_and_flip() undone: flipping the group back restores the map. */
  lemma FlipBack(m: seq<bool>, i: nat, n: nat, v: bool)
    requires Scan(m, i, n, v).Some?
    ensures var j := Scan(m, i, n, v).value; Marked(Marked(m, j, n, !v), j, n, v) == m
  {
    var j := Scan(m, i, n, v).value;
    assert Marked(Marked(m, j, n, !v), j, n, v) == m;
  }

  // ---------------------------------------------------------------- words

  function And(a: Word, b: Word): Word {
    a & b
  }

  function Or(a: Word, b: Word): Word {
    a | b
  }

  function Xor(a: Word, b: Word): Word {
    a ^ b
  }

  function Not(a: Word): Word {
    !a
  }

  /** bit_mask(). */
  function Mask(k: nat): Word
    requires k < 32
  {
    (1 as Word) << k
  }

  predicate Test(w: Word, k: nat)
    requires k < 32
  {
    And(w, Mask(k)) != 0
  }

  lemma MasksApart(j: nat, k: nat)
    requires j < 32 && k < 32 && j != k
    ensures And(Mask(j), Mask(k)) == 0
  {
  }

  lemma MaskNonZero(k: nat)
    requires k < 32
    ensures Mask(k) != 0
  {
  }

  lemma OrApart(w: Word, a: Word, b: Word)
    requires And(a, b) == 0
    ensures And(Or(w, a), b) == And(w, b)
  {
  }

  lemma AndApart(w: Word, a: Word, b: Word)
    requires And(a, b) == 0
    ensures And(And(w, Not(a)), b) == And(w, b)
  {
  }

  lemma XorApart(w: Word, a: Word, b: Word)
    requires And(a, b) == 0
    ensures And(Xor(w, a), b) == And(w, b)
  {
    assert (w ^ a) & b == (w & b) ^ (a & b);
  }

  lemma Same(w: Word, a: Word)
    ensures And(Or(w, a), a) == a && And(And(w, Not(a)), a) == 0
  {
  }

  lemma XorSame(w: Word, k: nat)
    requires k < 32
    ensures And(Xor(w, Mask(k)), Mask(k)) == 0 <==> And(w, Mask(k)) != 0
  {
    assert (w ^ Mask(k)) & Mask(k) == (w & Mask(k)) ^ Mask(k);
  }

  /** The or of a word with a mask sets just the bit of the mask. */
  lemma OrBit(w: Word, k: nat, j: nat)
    requires k < 32 && j < 32
    ensures Test(Or(w, Mask(k)), j) <==> j == k || Test(w, j)
  {
    hide And, Or, Mask;
    if j == k {
      Same(w, Mask(k));
      MaskNonZero(k);
    } else {
      MasksApart(k, j);
      OrApart(w, Mask(k), Mask(j));
    }
  }

  /** The and with the complement clears just that bit. */
  lemma AndBit(w: Word, k: nat, j: nat)
    requires k < 32 && j < 32
    ensures Test(And(w, Not(Mask(k))), j) <==> j != k && Test(w, j)
  {
    hide And, Not, Mask;
    if j == k {
      Same(w, Mask(k));
    } else {
      MasksApart(k, j);
      AndApart(w, Mask(k), Mask(j));
    }
  }

  /** The exclusive or flips just that bit. */
  lemma XorBit(w: Word, k: nat, j: nat)
    requires k < 32 && j < 32
    ensures Test(Xor(w, Mask(k)), j) <==> Test(w, j) != (j == k)
  {
    hide And, Xor, Mask;
    if j == k {
      XorSame(w, k);
    } else {
      MasksApart(k, j);
      XorApart(w, Mask(k), Mask(j));
    }
  }

  /** last_mask(). */
  function LastMask(bits: nat): Word {
    if bits % 32 != 0 then Mask(bits % 32) - 1 else 0xffff_ffff
  }

  /** Masking the last word keeps the bits in use and clears the rest. */
  lemma LastMaskBits(w: Word, bits: nat, k: nat)
    requires k < 32
    ensures Test(And(w, LastMask(bits)), k) <==> Test(w, k) && (bits % 32 == 0 || k < bits % 32)
  {
    hide And, Mask, LastMask;
    LastMaskBelow(bits, k);
    Submask(w, LastMask(bits), Mask(k));
  }

  lemma Submask(w: Word, m: Word, b: Word)
    ensures And(m, b) == b ==> And(And(w, m), b) == And(w, b)
    ensures And(m, b) == 0 ==> And(And(w, m), b) == 0
  {
    assert And(And(w, m), b) == And(w, And(m, b));
  }

  lemma LastMaskBelow(bits: nat, k: nat)
    requires k < 32
    ensures And(LastMask(bits), Mask(k)) == if bits % 32 == 0 || k < bits % 32 then Mask(k) else 0
  {
    if bits % 32 != 0 {
      BelowMask(bits % 32, k);
    } else {
      assert 0xffff_ffff & Mask(k) == Mask(k);
    }
  }

  lemma BelowMask(n: nat, k: nat)
    requires 0 < n < 32 && k < 32
    ensures And(Mask(n) - 1, Mask(k)) == if k < n then Mask(k) else 0
  {
    hide And, Mask;
    if k < n {
      InsideMask(n, k);
    } else {
      OutsideMask(n, k);
    }
  }

  lemma InsideMask(n: nat, k: nat)
    requires k < n < 32
    ensures And(Mask(n) - 1, Mask(k)) == Mask(k)
  {
  }

  lemma OutsideMask(n: nat, k: nat)
    requires 0 < n <= k < 32
    ensures And(Mask(n) - 1, Mask(k)) == 0
  {
  }

  // ---------------------------------------------------------------- struct bitmap

  class BitArray {
    const size: nat
    const bits: array<Word>

    ghost predicate Valid()
      reads this
    {
      bits.Length == (size + 31) / 32
    }

    /** The bits that the words stand for. */
    ghost function Contents(): (m: seq<bool>)
      requires Valid()
      reads this, bits
      ensures |m| == size
    {
      seq(size, i requires 0 <= i < size reads this, bits requires Valid() => Test(bits[i / 32], i % 32))
    }

    /** bitmap_create(). */
    constructor (n: nat)
      ensures Valid() && size == n && fresh(bits)
      ensures Contents() == seq(n, _ => false)
    {
      size := n;
      bits := new Word[(n + 31) / 32](_ => 0);
    }

    /** bitmap_mark(). */
    method Mark(i: nat)
      requires Valid() && i < size
      modifies bits
      ensures Contents() == old(Contents())[i := true]
    {
      hide And, Or, Xor, Not, Mask, Test;
      forall k: nat | k < 32 ensures Test(Or(bits[i / 32], Mask(i % 32)), k) <==> k == i % 32 || Test(bits[i / 32], k) {
        OrBit(bits[i / 32], i % 32, k);
      }
      bits[i / 32] := Or(bits[i / 32], Mask(i % 32));
    }

    /** bitmap_reset(). */
    method Reset(i: nat)
      requires Valid() && i < size
      modifies bits
      ensures Contents() == old(Contents())[i := false]
    {
      hide And, Or, Xor, Not, Mask, Test;
      forall k: nat | k < 32 ensures Test(And(bits[i / 32], Not(Mask(i % 32))), k) <==> k != i % 32 && Test(bits[i / 32], k) {
        AndBit(bits[i / 32], i % 32, k);
      }
      bits[i / 32] := And(bits[i / 32], Not(Mask(i % 32)));
    }

    /** bitmap_flip(). */
    method Flip(i: nat)
      requires Valid() && i < size
      modifies bits
      ensures Contents() == old(Contents())[i := !old(Contents())[i]]
    {
      hide And, Or, Xor, Not, Mask, Test;
      forall k: nat | k < 32 ensures Test(Xor(bits[i / 32], Mask(i % 32)), k) <==> Test(bits[i / 32], k) != (k == i % 32) {
        XorBit(bits[i / 32], i % 32, k);
      }
      bits[i / 32] := Xor(bits[i / 32], Mask(i % 32));
    }

    /** bitmap_test(). */
    method TestBit(i: nat) returns (v: bool)
      requires Valid() && i < size
      ensures v == Contents()[i]
    {
      hide And, Mask;
      v := And(bits[i / 32], Mask(i % 32)) != 0;
    }

    /** bitmap_set(). */
    method Set(i: nat, v: bool)
      requires Valid() && i < size
      modifies bits
      ensures Contents() == old(Contents())[i := v]
    {
      if v {
        Mark(i);
      } else {
        Reset(i);
      }
    }

    /** bitmap_set_multiple(). */
    method SetMultiple(i: nat, n: nat, v: bool)
      requires Valid() && i + n <= size
      modifies bits
      ensures Contents() == Marked(old(Contents()), i, n, v)
    {
      hide And, Mask, Test;
      for x := 0 to n
        invariant Contents() == Marked(old(Contents()), i, x, v)
      {
        Set(i + x, v);
      }
    }

    /** bitmap_count(). */
    method CountBits(i: nat, n: nat, v: bool) returns (c: nat)
      requires Valid() && i + n <= size
      ensures c == Count(Contents()[i..i + n], v)
    {
      hide And, Or, Xor, Not, Mask, Test;
      ghost var m := Contents();
      c := 0;
      hide And, Mask, Test;
      for x := 0 to n
        invariant Contents() == m && c == Count(m[i..i + x], v)
      {
        var b := TestBit(i + x);
        assert m[i..i + x + 1][..x] == m[i..i + x];
        if b == v {
          c := c + 1;
        }
      }
    }

    /** bitmap_contains(). */
    method Contains(i: nat, n: nat, v: bool) returns (found: bool)
      requires Valid() && i + n <= size
      ensures found <==> !AllAre(Contents(), i, n, !v)
    {
      hide And, Mask, Test;
      for x := 0 to n
        invariant AllAre(Contents(), i, x, !v)
      {
        var b := TestBit(i + x);
        if b == v {
          return true;
        }
      }
      return false;
    }

    /** bitmap_scan(). */
    method ScanBits(start: nat, n: nat, v: bool) returns (r: Option<nat>)
      requires Valid() && start <= size
      ensures r == Scan(Contents(), start, n, v)
    {
      hide And, Mask, Test;
      if n <= size {
        var i := start;
        while i <= size - n
          invariant start <= i && (i <= size - n + 1 || i == start)
          invariant Scan(Contents(), start, n, v) == Scan(Contents(), i, n, v)
        {
          var other := Contains(i, n, !v);
          if !other {
            return Some(i);
          }
          i := i + 1;
        }
      }
      return None;
    }

    /** bitmap_scan_and_flip(). */
    method ScanAndFlip(start: nat, n: nat, v: bool) returns (r: Option<nat>)
      requires Valid() && start <= size
      modifies bits
      ensures r == Scan(old(Contents()), start, n, v)
      ensures Contents() == if r.Some? then Marked(old(Contents()), r.value, n, !v) else old(Contents())
    {
      r := ScanBits(start, n, v);
      if r.Some? {
        SetMultiple(r.value, n, !v);
      }
    }
  }
}
