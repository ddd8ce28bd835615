/** The allocator itself: kalloc and kfree over the arrays, proved against the arena. */
module BuddyAllocator {
  import opened Bits
  import opened Sizes
  import opened BuddyArena
  import opened BuddyCells
  import opened BuddyTheorems
  import opened BuddyRefinement

  const BLOCK_OFFSET: nat := 0x20000

  function IndexToAddr(idx: nat): nat {
    idx * 0x1000 + BLOCK_OFFSET
  }

  /** The subtraction is on 32-bit addresses, so an address below the region wraps to a large index. */
  function AddrToIndex(addr: nat, numBlocks: nat): nat {
    var index := ((addr - BLOCK_OFFSET) % WORD) / 0x1000;
    if index >= numBlocks then NULL_BLOCK else index
  }

  /** Inside the region the two conversions invert each other; any address of a page maps to it. */
  lemma AddressRoundTrip(idx: nat, offset: nat, numBlocks: nat)
    requires idx < numBlocks <= 0x8000 && offset < 0x1000
    ensures AddrToIndex(IndexToAddr(idx) + offset, numBlocks) == idx
  {
  }

  lemma AddrToIndexInverse(addr: nat, numBlocks: nat)
    requires addr < WORD && numBlocks <= 0x8000 && AddrToIndex(addr, numBlocks) != NULL_BLOCK
    ensures BLOCK_OFFSET <= addr && IndexToAddr(AddrToIndex(addr, numBlocks)) == addr - addr % 0x1000
  {
  }

  lemma {:induction false} PageMultiple(h: nat, k: nat)
    ensures (h * 0x1000) % (0x1000 * Pow2(k)) == 0 <==> Aligned(h, k)
  {
    AlignedIsModulus(h, k);
    var p := Pow2(k);
    var q, r := h / p, h % p;
    assert h * 0x1000 == q * (0x1000 * p) + r * 0x1000 by {
      assert h == q * p + r;
      assert (q * p) * 0x1000 == q * (0x1000 * p);
    }
    ModUnique(h * 0x1000, 0x1000 * p, q, r * 0x1000);
  }

  /** The free flags are the same. */
  predicate SameFlags(c: Cells, c': Cells) {
    |c'.pages| == |c.pages| && forall i :: 0 <= i < |c.pages| ==> c'.pages[i].IsFree() == c.pages[i].IsFree()
  }

  class Allocator {
    const m: nat
    const freeLists: array<nat>
    const blocks: array<Page>
    ghost var arena: Arena

    ghost function TheCells(): Cells
      reads freeLists, blocks
    {
      Cells(freeLists[..], blocks[..])
    }

    ghost predicate Consistent(except: int)
      reads this, freeLists, blocks
    {
      && arena.Inv() && arena.m == m && blocks.Length <= 0x8000
      && |arena.lists| == freeLists.Length
      && Represents(TheCells(), arena, except)
    }

    ghost predicate Valid()
      reads this, freeLists, blocks
    {
      Consistent(-1)
    }

    /** All lists empty but the last, which holds block 0; every page flagged free. */
    constructor (m: nat, numLists: nat)
      requires m <= 15 && m < numLists <= 18
      ensures Valid() && fresh(freeLists) && fresh(blocks)
      ensures this.m == m && arena == Initial(m, numLists)
      ensures blocks.Length == Pow2(m) && freeLists.Length == numLists && arena.Live() == map[] && arena.IsFree(0)
    {
      RegionBound(m);
      this.m := m;
      freeLists := new nat[numLists](k => NULL_BLOCK);
      blocks := new Page[Pow2(m)](i => Page(NULL_BLOCK, NULL_BLOCK, 1));
      arena := Initial(m, numLists);
      new;
      freeLists[numLists - 1] := 0;
      InitialInv(m, numLists);
      InitialRepresents(TheCells(), m, numLists);
    }

    static lemma RegionBound(m: nat)
      requires m <= 15
      ensures Pow2(m) <= 0x8000
    {
      Pow2Monotone(m, 15);
      assert Pow2(15) == 0x8000;
    }

    static lemma InitialRepresents(c: Cells, m: nat, numLists: nat)
      requires m <= 15 && m < numLists <= 18 && |c.pages| == Pow2(m) <= 0x8000
      requires |c.first| == numLists && c.first[numLists - 1] == 0
      requires forall k :: 0 <= k < numLists - 1 ==> c.first[k] == NULL_BLOCK
      requires forall i :: 0 <= i < |c.pages| ==> c.pages[i] == Page(NULL_BLOCK, NULL_BLOCK, 1)
      ensures Represents(c, Initial(m, numLists), -1)
    {
      var a := Initial(m, numLists);
      forall k | 0 <= k < numLists ensures Chain(c.first[k], c.pages, a.lists[k]) {
        forall j | 0 <= j < |a.lists[k]| ensures Node(c.pages, a.lists[k], j) {
        }
      }
      assert a.lists[numLists - 1] == [0];
    }

    method PopFreeList(idx: nat) returns (r: nat)
      requires Valid() && idx < freeLists.Length
      modifies this`arena, freeLists, blocks
      ensures Valid()
      ensures old(arena).lists[idx] == [] ==> r == NULL_BLOCK && arena == old(arena)
      ensures old(arena).lists[idx] != [] ==>
                r == old(arena).lists[idx][0] < blocks.Length && arena == Pop(old(arena), idx)
    {
      ghost var c := TheCells();
      assert Chain(c.first[idx], c.pages, arena.lists[idx]);
      if freeLists[idx] == NULL_BLOCK {
        assert arena.lists[idx] != [] ==> Node(c.pages, arena.lists[idx], 0);
        return NULL_BLOCK;
      }
      PopRepresents(c, arena, idx);
      PopHolding(arena, idx);
      r := freeLists[idx];
      var next := blocks[r].next;
      freeLists[idx] := next;
      if next < blocks.Length {
        // Repaired: the file clears the new head's `next` here.
        blocks[next] := blocks[next].(prev := NULL_BLOCK);
      }
      blocks[r] := blocks[r].(next := NULL_BLOCK, prev := NULL_BLOCK).ClearFree().SetOrder(idx);
      arena := Pop(arena, idx);
      assert TheCells() == PopCells(c, idx);
    }

    method PushFreeList(idx: nat, b: nat)
      requires idx < freeLists.Length && b < blocks.Length
      requires freeLists[idx] == NULL_BLOCK || freeLists[idx] < blocks.Length
      modifies freeLists, blocks
      ensures TheCells() == PushCells(old(TheCells()), idx, b)
    {
      blocks[b] := blocks[b].SetFree().SetOrder(idx);
      if freeLists[idx] == NULL_BLOCK {
        freeLists[idx] := b;
        blocks[b] := blocks[b].(next := NULL_BLOCK, prev := NULL_BLOCK);
      } else {
        var h := freeLists[idx];
        blocks[h] := blocks[h].(prev := b);
        blocks[b] := blocks[b].(next := h, prev := NULL_BLOCK);
        freeLists[idx] := b;
      }
    }

    method RemoveFromList(b: nat)
      requires b < blocks.Length && blocks[b].Order() < freeLists.Length
      modifies freeLists, blocks
      ensures TheCells() == RemoveCells(old(TheCells()), b)
    {
      var page := blocks[b];
      if page.prev < blocks.Length {
        blocks[page.prev] := blocks[page.prev].(next := page.next);
      }
      if page.next < blocks.Length {
        // Repaired: the file leaves the successor pointing back at the removed page.
        blocks[page.next] := blocks[page.next].(prev := page.prev);
      }
      if freeLists[page.Order()] == b {
        freeLists[page.Order()] := page.next;
      }
    }

    function BuddyIndexOf(b: nat): nat
      requires b < blocks.Length
      reads blocks
    {
      BuddyIndex(b, blocks[b].Order(), blocks.Length)
    }

    function BuddyIsFree(b: nat): bool
      requires b < blocks.Length
      reads blocks
    {
      var buddy := BuddyIndexOf(b);
      buddy < blocks.Length
      && blocks[buddy].IsFree()
      // Repaired: the file does not compare the orders.
      && blocks[buddy].Order() == blocks[b].Order()
    }

    /** The first address behind the managed pages. */
    function RegionEnd(): nat {
      BLOCK_OFFSET + 0x1000 * Pow2(m)
    }

    /** kalloc: null, exactly when no free block holds `size` bytes, or a block of the least order that
        holds them, whose page was in no live block and now starts one. The block lies between the first
        and the last managed page exactly when the request is no larger than all of them. */
    method Kalloc(size: nat) returns (addr: nat)
      requires Valid() && size < WORD
      modifies this`arena, freeLists, blocks
      ensures Valid()
      ensures var r := Allocate(old(arena), ListIndex(size));
              && (r.Nothing? ==> addr == 0 && arena == old(arena))
              && (r.Block? ==> addr == IndexToAddr(r.head) && arena == r.arena)
      ensures addr == 0 <==> forall h: nat :: old(arena).IsFree(h) ==> 0x1000 * Pow2(old(arena).tiles[h]) < size
      ensures addr != 0 ==> exists h: nat, k: nat {:trigger old(arena).Live()[h := k]} ::
                && addr == 0x20000 + 0x1000 * h && h !in old(arena).Live()
                && size <= 0x1000 * Pow2(k) && (k > 0 ==> 0x1000 * Pow2(k - 1) < size)
                && arena.Live() == old(arena).Live()[h := k]
      ensures addr != 0 ==>
                (addr + 0x1000 * Pow2(ListIndex(size)) <= RegionEnd() <==> size <= 0x1000 * Pow2(m))
      ensures addr != 0 && size <= 0x1000 * Pow2(m) ==> BLOCK_OFFSET <= addr && addr + size <= RegionEnd()
    {
      if Allocate(arena, ListIndex(size)).Block? { BlockInBytes(arena, size); }
      KallocInBytes(arena, size);
      var k := ComputeIndex(size);
      // Repaired: the file compares with the number of blocks.
      if k >= freeLists.Length {
        return 0;
      }
      addr := TakeBlock(k);
    }

    /** kalloc from the first pop on: search the lists from `k` upwards and split what is found. */
    method TakeBlock(k: nat) returns (addr: nat)
      requires Valid() && k < freeLists.Length
      modifies this`arena, freeLists, blocks
      ensures Valid()
      ensures var r := Allocate(old(arena), k);
              && (r.Nothing? ==> addr == 0 && arena == old(arena))
              && (r.Block? ==> addr == IndexToAddr(r.head) && arena == r.arena)
    {
      ghost var a0 := arena;
      var head := PopFreeList(k);
      if head != NULL_BLOCK {
        AllocateFrom(a0, k, k);
        return IndexToAddr(head);
      }
      var i := k + 1;
      while i < freeLists.Length
        invariant k < i <= freeLists.Length
        invariant Valid() && arena == a0
        invariant forall q :: k <= q < i ==> a0.lists[q] == []
      {
        head := PopFreeList(i);
        if head != NULL_BLOCK {
          AllocateFrom(a0, k, i);
          SplitBlock(head, i, k);
          return IndexToAddr(head);
        }
        i := i + 1;
      }
      AllocateFrom(a0, k, i);
      return 0;
    }

    /** The inner loop of kalloc and the two statements behind it. */
    method SplitBlock(head: nat, i: nat, k: nat)
      requires Valid() && k <= i && Holding(arena, head, i)
      modifies this`arena, freeLists, blocks
      ensures Valid() && arena == SplitTo(old(arena), head, i, k)
    {
      ghost var a0 := arena;
      var j := i;
      while j > k
        invariant k <= j <= i
        invariant Consistent(head) && Holding(arena, head, j)
        invariant |arena.lists| == |a0.lists|
        invariant SplitTo(a0, head, i, k) == SplitTo(arena, head, j, k)
      {
        SplitStep(head, j);
        j := j - 1;
      }
      FinishRepresents(TheCells(), arena, head, k);
      ghost var c := TheCells();
      blocks[head] := blocks[head].SetOrder(k);
      blocks[head] := blocks[head].ClearFree();
      assert TheCells() == c.(pages := c.pages[head := c.pages[head].SetOrder(k).ClearFree()]);
    }

    /** The body of that loop. */
    method SplitStep(head: nat, j: nat)
      requires Consistent(head) && Holding(arena, head, j) && j > 0
      modifies this`arena, freeLists, blocks
      ensures Consistent(head) && Holding(arena, head, j - 1)
      ensures arena == SplitOnce(old(arena), head, j)
    {
      assert Fits(arena.Pages(), arena.tiles, head);
      SmallBlock(j - 1);
      MiddleIndex(head, Pow2(j - 1), blocks.Length);
      SplitHolding(arena, head, j);
      var middleAddr := IndexToAddr(head) + 0x1000 * Pow2(j - 1);
      var mid := AddrToIndex(middleAddr, blocks.Length);
      if mid != NULL_BLOCK {
        SplitRepresents(TheCells(), arena, head, j);
        PushFreeList(j - 1, mid);
      } else {
        DropRepresents(TheCells(), arena, head, j);
      }
      arena := SplitOnce(arena, head, j);
    }

    /** The pointer fails one of kfree's assertions, which halt the kernel. */
    predicate Refused(ptr: nat)
      reads blocks
    {
      var idx := AddrToIndex(ptr, blocks.Length);
      ptr % 0x1000 != 0 || ptr < BLOCK_OFFSET || (idx < blocks.Length && blocks[idx].IsFree())
    }

    /** kfree: it halts, changing nothing, on every pointer that is not the address of a live block; the
        block at any other is released. Freeing a block twice in a row is refused the second time exactly
        when the block starts the one it was merged into (see SecondFree): the record of a block that was
        merged into its lower buddy keeps a clear flag, and only the first page of the merged block is
        flagged. */
    method Kfree(ptr: nat) returns (halted: bool)
      requires Valid() && ptr < WORD
      requires ptr % 0x1000 != 0 || ptr < 0x20000
               || (var h := (ptr - 0x20000) / 0x1000; h < blocks.Length && (h in arena.tiles || blocks[h].IsFree()))
      modifies this`arena, freeLists, blocks
      ensures Valid()
      ensures halted == old(Refused(ptr))
      ensures halted <==> forall h: nat :: old(arena).IsLive(h) ==> ptr != 0x20000 + 0x1000 * h
      ensures halted ==> arena == old(arena) && TheCells() == old(TheCells())
      ensures var h := AddrToIndex(ptr, blocks.Length);
              !halted ==> (old(arena).IsLive(h) && Aligned(h, old(arena).tiles[h]) &&
                           arena == Release(old(arena), h, old(arena).tiles[h]))
      ensures !halted ==> arena.Live() == old(arena).Live() - {(ptr - 0x20000) / 0x1000}
      ensures !halted ==> (Refused(ptr) <==> AddrToIndex(ptr, blocks.Length) in arena.tiles)
    {
      RefusedExactly(ptr);
      if Refused(ptr) {
        return true;
      }
      var block: nat := AddrToIndex(ptr, blocks.Length);
      assert Fits(arena.Pages(), arena.tiles, block) && TagOk(blocks[..], arena, block);
      ReleaseCorrect(arena, block);
      Coalesce(block);
      return false;
    }

    /** Of the pointers that kfree can be given, the assertions let through the addresses of live blocks. */
    lemma RefusedExactly(ptr: nat)
      requires Valid() && ptr < WORD
      requires ptr % 0x1000 != 0 || ptr < 0x20000
               || (var h := (ptr - 0x20000) / 0x1000; h < blocks.Length && (h in arena.tiles || blocks[h].IsFree()))
      ensures Refused(ptr) <==> forall h: nat :: arena.IsLive(h) ==> ptr != 0x20000 + 0x1000 * h
      ensures !Refused(ptr) ==>
                var h := AddrToIndex(ptr, blocks.Length); h == (ptr - 0x20000) / 0x1000 && arena.IsLive(h)
    {
      forall h: nat | h in arena.tiles
        ensures h < blocks.Length && (blocks[h].IsFree() <==> arena.IsFree(h))
      {
        assert TagOk(TheCells().pages, arena, h);
      }
      forall h: nat | arena.IsLive(h) && ptr == 0x20000 + 0x1000 * h ensures !Refused(ptr) {
        AddressRoundTrip(h, 0, blocks.Length);
      }
      if !Refused(ptr) {
        var h := AddrToIndex(ptr, blocks.Length);
        AddrToIndexInverse(ptr, blocks.Length);
        assert ptr == 0x20000 + 0x1000 * h && arena.IsLive(h);
      }
    }

    /** kfree from the order on: join with free buddies, then list the result. */
    method Coalesce(block: nat)
      requires Valid() && arena.IsLive(block) && Aligned(block, arena.tiles[block])
      requires block < blocks.Length && blocks[block].Order() == arena.tiles[block]
      modifies this`arena, freeLists, blocks
      ensures Valid() && arena == Release(old(arena), block, old(arena).tiles[block])
      ensures blocks[block].IsFree() <==> block in arena.tiles
    {
      assert TagOk(blocks[..], arena, block);
      ghost var a0 := arena;
      var b: nat := block;
      var k: nat := blocks[b].Order();
      while BuddyIsFree(b)
        invariant Consistent(b) && Holding(arena, b, k) && Aligned(b, k) && b < blocks.Length
        invariant blocks[b].Order() == k && |arena.lists| == |a0.lists|
        invariant Release(a0, block, a0.tiles[block]) == Release(arena, b, k)
        invariant !blocks[block].IsFree() && (b != block ==> block !in arena.tiles)
        decreases freeLists.Length - k
      {
        TestMeaning(b, k);
        MergeHeads(arena, b, k);
        b := MergeWithBuddy(b, k);
        k := k + 1;
      }
      TestMeaning(b, k);
      ListBlock(b, k, block);
    }

    /** The last statement of kfree. Only the flag of `b` changes. */
    method ListBlock(b: nat, k: nat, ghost i: nat)
      requires Consistent(b) && Holding(arena, b, k) && Aligned(b, k) && !arena.BuddyFree(b)
      requires b < blocks.Length && i < blocks.Length && k < freeLists.Length
      modifies this`arena, freeLists, blocks
      ensures Valid() && arena == Push(old(arena), k, b)
      ensures blocks[i].IsFree() <==> i == b || old(blocks[i].IsFree())
    {
      PushRepresents(TheCells(), arena, b, k);
      PushCorrect(arena, b, k);
      PushTags(TheCells(), k, b, i);
      PushFreeList(k, b);
      arena := Push(arena, k, b);
    }

    /** The body of that loop. */
    method MergeWithBuddy(b: nat, k: nat) returns (lo: nat)
      requires Consistent(b) && Holding(arena, b, k) && Aligned(b, k) && arena.BuddyFree(b)
      requires b < blocks.Length && BuddyIndexOf(b) == Buddy(b, k) && k + 1 < 0x80
      modifies this`arena, freeLists, blocks
      ensures lo == Min(b, Buddy(b, k)) < blocks.Length
      ensures arena == Merge(old(arena), b, k) && Consistent(lo)
      ensures Holding(arena, lo, k + 1) && Aligned(lo, k + 1) && k + 1 < freeLists.Length
      ensures blocks[lo].Order() == k + 1
      ensures SameFlags(old(TheCells()), TheCells())
    {
      ghost var c := TheCells();
      MergeRepresents(c, arena, b, k);
      MergeHolding(arena, b, k);
      LowerHalfAligned(b, k);
      var buddy := BuddyIndexOf(b);
      RemoveFromList(buddy);
      arena := Merge(arena, b, k);
      lo := if b > buddy then buddy else b;
      PackingLaws(blocks[lo], k + 1);
      blocks[lo] := blocks[lo].SetOrder(k + 1);
      assert TheCells() == MergeCells(c, buddy, lo, k);
      forall i: nat | i < |c.pages| ensures MergeCells(c, buddy, lo, k).pages[i].IsFree() == c.pages[i].IsFree() {
        MergeFlags(c, buddy, lo, k, i);
      }
    }

    /** What the loop test of kfree decides. */
    lemma TestMeaning(b: nat, k: nat)
      requires Consistent(b) && Holding(arena, b, k) && Aligned(b, k) && b < blocks.Length
      requires blocks[b].Order() == k
      ensures BuddyIsFree(b) <==> arena.BuddyFree(b)
      ensures BuddyIsFree(b) ==> BuddyIndexOf(b) == Buddy(b, k)
    {
      BuddyIndexMeaning(b, k, blocks.Length);
      BuddyPair(b, k);
      assert arena.BuddyFree(b) ==> Fits(arena.Pages(), arena.tiles, Buddy(b, k));
      if Buddy(b, k) < blocks.Length { BuddyTest(TheCells(), arena, b, k); }
    }
  }

  /** buddy_index: by modulus and addition or subtraction on addresses. */
  function BuddyIndex(b: nat, order: nat, numBlocks: nat): nat {
    var blockAddress := b * 0x1000;
    if blockAddress % (0x1000 * Pow2(order + 1)) == 0 then
      AddrToIndex((blockAddress + 0x1000 * Pow2(order) + BLOCK_OFFSET) % WORD, numBlocks)
    else
      AddrToIndex((blockAddress - 0x1000 * Pow2(order) + BLOCK_OFFSET) % WORD, numBlocks)
  }

  /** The address arithmetic finds the buddy, and null exactly when it lies beyond the region. */
  lemma BuddyIndexMeaning(b: nat, k: nat, numBlocks: nat)
    requires Aligned(b, k) && k < 18 && b < numBlocks <= 0x8000
    ensures BuddyIndex(b, k, numBlocks) == if Buddy(b, k) < numBlocks then Buddy(b, k) else NULL_BLOCK
  {
    PageMultiple(b, k + 1);
    HalfOfParent(b, k);
    SmallBlock(k);
    ShiftedAddress(b, Pow2(k), numBlocks);
  }

  lemma SmallBlock(k: nat)
    requires k < 18
    ensures Pow2(k) <= 0x2_0000
  {
    Pow2Monotone(k, 17);
    assert 0x2_0000 == 2 * 0x1_0000 == 4 * 0x8000;
    assert Pow2(17) == 2 * Pow2(16) == 4 * Pow2(15);
  }

  lemma ShiftedAddress(b: nat, p: nat, numBlocks: nat)
    requires b < numBlocks <= 0x8000 && p <= 0x2_0000
    ensures AddrToIndex((b * 0x1000 + 0x1000 * p + BLOCK_OFFSET) % WORD, numBlocks) ==
            if b + p < numBlocks then b + p else NULL_BLOCK
    ensures b >= p ==> AddrToIndex((b * 0x1000 - 0x1000 * p + BLOCK_OFFSET) % WORD, numBlocks) == b - p
  {
  }

  lemma MiddleIndex(h: nat, half: nat, numBlocks: nat)
    requires h < numBlocks <= 0x8000 && half <= 0x2_0000
    ensures AddrToIndex(IndexToAddr(h) + 0x1000 * half, numBlocks) ==
            if h + half < numBlocks then h + half else NULL_BLOCK
  {
  }

  /** AllocateInside in bytes. */
  lemma BlockInBytes(a: Arena, size: nat)
    requires a.Inv() && a.m <= 19 && size < WORD && Allocate(a, ListIndex(size)).Block?
    ensures var addr, k := IndexToAddr(Allocate(a, ListIndex(size)).head), ListIndex(size);
            && (addr + 0x1000 * Pow2(k) <= BLOCK_OFFSET + 0x1000 * a.Pages() <==> size <= 0x1000 * a.Pages())
            && (size <= 0x1000 * a.Pages() ==> size <= 0x1000 * Pow2(k))
  {
    var k := ListIndex(size);
    AllocateInside(a, k);
    IndexInRegion(size, a.m);
    if k <= a.m {
      Pow2Monotone(a.m, 19);
      PageScale(19);
      Pow2OfWord();
      ListIndexLeast(size, k);
    }
  }

  /** AllocateCorrect in bytes. */
  lemma KallocInBytes(a: Arena, size: nat)
    requires a.Inv() && |a.lists| <= 18 && size < WORD
    ensures Allocate(a, ListIndex(size)).Nothing? <==>
              forall h: nat :: a.IsFree(h) ==> 0x1000 * Pow2(a.tiles[h]) < size
    ensures var r := Allocate(a, ListIndex(size));
            var k := ListIndex(size);
            r.Block? ==>
              && r.head !in a.Live() && r.arena.Live() == a.Live()[r.head := k]
              && size <= 0x1000 * Pow2(k) && (k > 0 ==> 0x1000 * Pow2(k - 1) < size)
  {
    var k := ListIndex(size);
    AllocateCorrect(a, k);
    forall h: nat | a.IsFree(h) ensures a.tiles[h] < k <==> 0x1000 * Pow2(a.tiles[h]) < size {
      IndexInRegion(size, a.tiles[h]);
    }
    if Allocate(a, k).Block? {
      IndexInRegion(size, k);
      if k > 0 { IndexInRegion(size, k - 1); }
    }
  }

  /** The first statements of kalloc: the list index by rounding up and taking the logarithm. */
  method ComputeIndex(size: nat) returns (k: nat)
    requires size < WORD
    ensures k == ListIndex(size)
  {
    var adjusted := if size < 0x1000 then 0x1000 else size;
    var rounded := RoundUpPow2(adjusted);
    var digits := Log2(rounded);
    RoundedIndex(size);
    k := digits - PAGE_BITS;
  }

  /** Rounding and taking the logarithm gives the list index. */
  lemma RoundedIndex(size: nat)
    requires size < WORD
    ensures var adjusted := if size < 0x1000 then 0x1000 else size;
            var w := Width(adjusted - 1);
            if adjusted <= 0x8000_0000 then Width(Pow2(w)) - 1 == ListIndex(size) + PAGE_BITS
            else 0xFF == ListIndex(size) + PAGE_BITS
  {
    var adjusted := if size < 0x1000 then 0x1000 else size;
    var w := Width(adjusted - 1);
    IndexWidth(adjusted);
    WidthUnique(Pow2(w), w + 1);
  }
}
