/** From a request in bytes to a list index: the bit-smearing rounding and the counting logarithm. */
module Sizes {
  import opened Bits

  const PAGE_BITS: nat := 12

  /** The number of binary digits of `x`. */
  function Width(x: nat): (w: nat)
    ensures x < Pow2(w) && (w > 0 ==> Pow2(w - 1) <= x)
  {
    if x == 0 then 0 else 1 + Width(x / 2)
  }

  lemma {:induction false} WidthUnique(x: nat, w: nat)
    requires x < Pow2(w) && (w > 0 ==> Pow2(w - 1) <= x)
    ensures Width(x) == w
  {
    if w > Width(x) {
      Pow2Monotone(Width(x), w - 1);
    } else if w < Width(x) {
      Pow2Monotone(w, Width(x) - 1);
    }
  }

  /** The top `t` of the `w` digits of `x` are ones. */
  ghost predicate TopOnes(x: nat, w: nat, t: nat) {
    x < Pow2(w) && forall i: nat :: i < w <= i + t ==> Bit(x, i)
  }

  lemma {:induction false} TopBit(x: nat)
    requires x > 0
    ensures Bit(x, Width(x) - 1)
  {
    if x / 2 > 0 { TopBit(x / 2); }
  }

  /** One step `x |= x >> t` doubles the run of leading ones. */
  lemma SmearStep(x: nat, w: nat, t: nat)
    requires TopOnes(x, w, t) && t > 0
    ensures TopOnes(Or(x, Shr(x, t)), w, 2 * t)
  {
    var y := Shr(x, t);
    ShrBound(x, t);
    OrBound(x, y, w);
    forall i: nat | i < w <= i + 2 * t ensures Bit(Or(x, y), i) {
      OrBit(x, y, i);
      ShrBit(x, t, i);
      if w > i + t { assert Bit(x, i + t); }
    }
  }

  lemma {:induction false} OnesBit(w: nat, i: nat)
    ensures Bit(Pow2(w) - 1, i) <==> i < w
  {
    if w == 0 {
      ZeroBit(i);
    } else {
      assert (Pow2(w) - 1) / 2 == Pow2(w - 1) - 1;
      if i > 0 { OnesBit(w - 1, i - 1); }
    }
  }

  lemma AllOnes(x: nat, w: nat, t: nat)
    requires TopOnes(x, w, t) && w <= t
    ensures x == Pow2(w) - 1
  {
    forall i: nat ensures Bit(x, i) == Bit(Pow2(w) - 1, i) {
      OnesBit(w, i);
      if w <= i { BitBound(x, w, i); }
    }
    BitsDetermine(x, Pow2(w) - 1);
  }

  lemma {:induction false} WordWidth(x: nat, w: nat)
    requires w > 0 && x < Pow2(w)
    ensures Width(x) <= w
  {
    if Width(x) > w { Pow2Monotone(w, Width(x) - 1); }
  }

  lemma WordDigits(x: nat)
    requires x < WORD
    ensures Width(x) <= 32
  {
    Pow2OfWord();
    WordWidth(x, 32);
  }

  lemma Pow2OfPage()
    ensures Pow2(12) == 0x1000
  {
    assert Pow2(4) == 16;
    Pow2Sum(4, 4);
    Pow2Sum(8, 4);
  }

  lemma Pow2OfWord()
    ensures Pow2(31) == 0x8000_0000 && Pow2(32) == WORD
  {
    assert Pow2(4) == 16;
    Pow2Sum(4, 4);
    Pow2Sum(8, 8);
    Pow2Sum(16, 16);
  }

  /** The statement `x |= x >> t`. */
  method OrShifted(x: nat, t: nat, ghost w: nat) returns (y: nat)
    requires TopOnes(x, w, t) && t > 0
    ensures TopOnes(y, w, 2 * t)
  {
    SmearStep(x, w, t);
    y := Or(x, Shr(x, t));
  }

  /** round_up_pow2 on a 32-bit word: the least power of two not below `num`; beyond `2^31`, and
      for zero, the increment wraps to zero. */
  method RoundUpPow2(num: nat) returns (r: nat)
    requires num < WORD
    ensures 1 <= num <= 0x8000_0000 ==> r == Pow2(Width(num - 1))
    ensures !(1 <= num <= 0x8000_0000) ==> r == 0
  {
    var x := if num == 0 then WORD - 1 else num - 1;
    ghost var w := Width(x);
    if x > 0 { TopBit(x); }
    WordDigits(x);
    WrapWidth(num);
    x := OrShifted(x, 1, w);
    x := OrShifted(x, 2, w);
    x := OrShifted(x, 4, w);
    x := OrShifted(x, 8, w);
    x := OrShifted(x, 16, w);
    AllOnes(x, w, 32);
    r := (x + 1) % WORD;
  }

  /** The decremented word has 32 digits exactly when the rounded value does not fit a word. */
  lemma WrapWidth(num: nat)
    requires num < WORD
    ensures 1 <= num <= 0x8000_0000 ==> Pow2(Width(num - 1)) < WORD
    ensures !(1 <= num <= 0x8000_0000) ==>
              Pow2(Width(if num == 0 then WORD - 1 else num - 1)) == WORD
  {
    Pow2OfWord();
    if 1 <= num <= 0x8000_0000 {
      WordWidth(num - 1, 31);
      Pow2Monotone(Width(num - 1), 31);
    } else {
      WidthUnique(if num == 0 then WORD - 1 else num - 1, 32);
    }
  }

  /** The rounded value is the least power of two that is not below `num`. */
  lemma RoundedIsLeast(num: nat, k: nat)
    requires num >= 1
    ensures Pow2(Width(num - 1)) >= num
    ensures Pow2(k) >= num ==> Pow2(k) >= Pow2(Width(num - 1))
  {
    WidthReaches(num, Width(num - 1));
    WidthReaches(num, k);
    if Width(num - 1) <= k { Pow2Monotone(Width(num - 1), k); }
  }

  /** log2: the exponent of the highest bit; the counter is a byte that starts at 255, so zero
      gives 255. */
  method Log2(num: nat) returns (count: nat)
    requires num < WORD
    ensures count == if num == 0 then 0xFF else Width(num) - 1
  {
    var n := num;
    count := 0xFF;
    ghost var steps, w := 0, Width(num);
    WordDigits(num);
    while n > 0
      invariant w == steps + Width(n) && (num > 0 ==> w > 0)
      invariant count == if steps == 0 then 0xFF else steps - 1
      invariant steps <= 32
      decreases n
    {
      WidthHalf(n);
      ByteCount(steps);
      n := n / 2;
      count := (count + 1) % 0x100;
      steps := steps + 1;
    }
  }

  lemma WidthHalf(n: nat)
    requires n > 0
    ensures Width(n) == 1 + Width(n / 2)
  {
  }

  /** A byte counter that starts at 255 trails the number of increments by one. */
  lemma ByteCount(steps: nat)
    requires steps < 0x100
    ensures ((if steps == 0 then 0xFF else steps - 1) + 1) % 0x100 == steps
  {
  }

  /** The list index kalloc computes for `size` bytes. */
  function ListIndex(size: nat): nat
    requires size < WORD
  {
    var adjusted := if size < 0x1000 then 0x1000 else size;
    if adjusted <= 0x8000_0000 then
      (assert Width(adjusted - 1) >= 12 by { IndexWidth(adjusted); }
       Width(adjusted - 1) - PAGE_BITS)
    else 0xFF - PAGE_BITS
  }

  lemma IndexWidth(n: nat)
    requires n >= 0x1000
    ensures Width(n - 1) >= 12
  {
    var w := Width(n - 1);
    if w < 12 { Pow2Monotone(w, 11); }
  }

  lemma PageScale(k: nat)
    ensures Pow2(k) * 0x1000 == Pow2(k + PAGE_BITS)
  {
    Pow2OfPage();
    Pow2Sum(k, PAGE_BITS);
  }

  /** `2^j` reaches `n` exactly when `n - 1` has at most `j` digits. */
  lemma WidthReaches(n: nat, j: nat)
    requires n >= 1
    ensures n <= Pow2(j) <==> Width(n - 1) <= j
  {
    var w := Width(n - 1);
    if w <= j { Pow2Monotone(w, j); } else { Pow2Monotone(j, w - 1); }
  }

  /** The index names the least order whose block holds `size` bytes: a block of order `k` is
      large enough exactly when `k` is at or above the index. */
  lemma ListIndexLeast(size: nat, k: nat)
    requires size <= 0x8000_0000
    ensures size <= Pow2(k) * 0x1000 <==> ListIndex(size) <= k
  {
    var adjusted := if size < 0x1000 then 0x1000 else size;
    IndexWidth(adjusted);
    WidthReaches(adjusted, k + PAGE_BITS);
    PageScale(k);
  }

  const NUM_BLOCKS: nat := 64
  const NUM_LISTS: nat := 9

  /** In a region of `2^m` pages the index is an order of the region exactly for sizes that the region
      could hold. */
  lemma IndexInRegion(size: nat, m: nat)
    requires size < WORD && m <= 19
    ensures ListIndex(size) <= m <==> size <= Pow2(m) * 0x1000
  {
    Pow2Monotone(m, 19);
    PageScale(19);
    Pow2OfWord();
    if size <= 0x8000_0000 { ListIndexLeast(size, m); }
  }

  /** The kernel has 64 pages. With either comparison there are sizes, above 256 KiB, that are neither
      rejected nor fit into them: up to 1 MiB when the index is compared with the lists, up to 2 GiB
      when it is compared with the blocks. */
  lemma BoundOfRegion(size: nat)
    requires size < WORD
    ensures ListIndex(size) >= NUM_LISTS || Pow2(ListIndex(size)) <= NUM_BLOCKS
            <==> size <= 0x4_0000 || size > 0x10_0000
    ensures ListIndex(size) >= NUM_BLOCKS || Pow2(ListIndex(size)) <= NUM_BLOCKS
            <==> size <= 0x4_0000 || size > 0x8000_0000
  {
    assert Pow2(6) == 0x40 && Pow2(8) == 0x100 by { assert Pow2(4) == 16; }
    IndexInRegion(size, 6);
    IndexInRegion(size, 8);
    if ListIndex(size) <= 6 { Pow2Monotone(ListIndex(size), 6); } else { Pow2Monotone(6, ListIndex(size)); }
    if size <= 0x8000_0000 {
      ListIndexLeast(size, 19);
      PageScale(19);
      Pow2OfWord();
    }
  }

  /** As written, kalloc compares the index with the 64 blocks instead of the 9 lists. The index
      it goes on with is a valid list exactly for sizes up to 1 MiB; between that and 2 GiB it
      reads past the lists, and above 2 GiB the wrapped index is rejected. */
  lemma BoundAsWritten(size: nat)
    requires size < WORD
    ensures ListIndex(size) >= NUM_BLOCKS || ListIndex(size) < NUM_LISTS
            <==> size <= 0x10_0000 || size > 0x8000_0000
  {
    if size <= 0x8000_0000 {
      ListIndexLeast(size, 8);
      ListIndexLeast(size, 19);
      PageScale(19);
      Pow2OfWord();
      assert Pow2(8) == 0x100 by { assert Pow2(4) == 16; Pow2Sum(4, 4); }
    }
  }
}
